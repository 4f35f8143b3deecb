# Quiz buzzer: round state machine, sessions and scoreboard

This project models the logic inside the two browser controllers of a live quiz
buzzer. The participant page (`participant.js`) registers a display name,
shows the round status and runs the buzz transaction. The host console
(`admin.js`) enables, disables and resets the round, sounds an alert when a slot
fills, and keeps the scoreboard. All shared state lives in a realtime store.
Each store transaction is modelled as one atomic step on a value, so concurrent
buzzes become an arbitrary sequence of buzzes.

Modules:

- `Wrappers` (`wrappers.dfy`): `Option`. A JavaScript `null` becomes `None`.
- `Keys` (`keys.dfy`): JavaScript `trim` and the key sanitiser `encodeKey`.
- `Round` (`round.dfy`): the round record `quizState`. It covers the host's
  `update`/`set` commands, the buzz transaction as a partial function
  (`None` = abort), the invariant, and what any sequence of buzzes does.
- `Scoreboard` (`scoreboard.dfy`): the `scores` map. It covers the registration
  merge, the host's score actions and the ranked row list.
- `Participant` (`participant.dfy`): the six-way status, the buzz-button
  predicate and the `Session` class. `Session` holds the saved name, the
  scoreboard key, the per-round "already buzzed" flag, the name lock and local
  storage.
- `Admin` (`admin.dfy`): the host panel, the `AlertDetector`
  class (edge-triggered alert) and alert counts over snapshot sequences.

Modelling conventions:

- Every reader applies defaults to missing fields: `buzzerEnabled = false`,
  `winner = null`, `displayName || key`, `score || 0`. The model stores those
  defaulted values. A missing `displayName` is `""` and a missing `score` is `0`.
- `Date.now()` becomes the parameter `now`. `confirm()` becomes the boolean
  `confirmed`. Local storage becomes the field `Session.storedName`.
- A store write is a function from the old stored value to the new one.
  A session method that writes the store takes the current stored value and
  returns the new one.

Two facts about the code that the model makes explicit:

- Keys are not injective: `"a.b"` and `"a_b"` share a key
  (`Keys.EncodeKeyCollides`).
- The buzz button does not check whether the caller already holds a slot. It
  looks only at the name, the flag, the buzzer and the two slots. A winner who
  reloads the page gets an enabled button, the transaction refuses the press,
  and the page shows "Too late" (`Participant.EnabledButtonStatus`,
  `Round.SlotHolderCannotBuzz`).

## Model

| member | source | states |
|---|---|---|
| `Keys.EncodeKey` | participant.js:37-39 | the key is as long as the trimmed name |
| `Keys.TrimSpec` | participant.js:38 | trim keeps a contiguous part with non-space ends and drops only whitespace around it; it is empty iff the input is all whitespace |
| `Keys.TrimIdempotent` | participant.js:38 | trimming twice equals trimming once |
| `Keys.ReplaceReservedSpec` | participant.js:38 | each of `. # $ / [ ]` and each whitespace character becomes `_`; every other character is kept in place |
| `Keys.EncodeKeySpec` | participant.js:37-39 | a key has the trimmed name's length and no reserved or whitespace character; non-reserved characters of the trimmed name stay in place |
| `Keys.EncodeKeyIdempotent` | participant.js:37-39 | encoding a key again leaves it unchanged |
| `Keys.EncodeKeyCollides` | participant.js:38 | two different names (`a.b`, `a_b`) map to one key, so keys are not injective |
| `Round.View` | participant.js:138-139 | a stored record is read as it is; an absent record reads as the disabled round with both slots empty |
| `Round.Update` | admin.js:127-134 | the store's `update` writes every field named in the patch with the patch's value and leaves every other field as it was |
| `Round.Enable` | admin.js:126-131 | from any prior state the record becomes enabled with both slots empty |
| `Round.EnableIdempotent` | admin.js:126-131 | Enable is idempotent and forgets the previous round |
| `Round.Disable` | admin.js:133-134 | the buzzer is switched off and the winner and runner-up slots are unchanged |
| `Round.Reset` | admin.js:136-141 | from any prior state the record becomes the disabled round with both slots empty, which satisfies the invariant |
| `Round.ResetIdempotent` | admin.js:136-141 | Reset always yields the disabled, empty round and is idempotent |
| `Round.HostCommandsKeepInv` | admin.js:126-141 | enable, disable and reset keep the round invariant |
| `Round.Buzz` | participant.js:207-221 | a buzz aborts when the record is absent or disabled, never overwrites a filled slot, always leaves a winner, and keeps the invariant |
| `Round.BuzzFillsWinner` | participant.js:210-213 | into an empty winner slot: the winner becomes the caller at `now`; the runner-up and the flag are unchanged |
| `Round.BuzzFillsRunnerUp` | participant.js:215-221 | with only the winner filled: a caller of another name becomes runner-up and the buzzer is switched off in the same commit; the winner's own name aborts |
| `Round.BuzzAfterBothFilledAborts` | participant.js:215-221 | once both slots are filled, every buzz aborts |
| `Round.SlotHolderCannotBuzz` | participant.js:207-221 | a name that holds a slot can never commit another buzz in the round |
| `Round.NoSecondCommit` | participant.js:207-221 | a caller whose buzz committed cannot commit a second one |
| `Round.BuzzUsesOneSlot` | participant.js:207-221 | a committed buzz uses exactly one open slot and keeps the invariant |
| `Round.CommitsBounded` | participant.js:207-221 | over any sequence of buzzes, no more commit than there are open slots (at most two), and the invariant holds throughout |
| `Round.ClosedRoundAbsorbs` | participant.js:208 | on a disabled record every buzz of any sequence aborts and nothing changes |
| `Round.HalfFilledOutcome` | participant.js:215-221 | with a winner recorded, the runner-up is the first later press of another name; the buzzer stays on only if there is none |
| `Round.OpenRoundOutcome` | participant.js:207-221 | from an enabled, empty round: the first press wins, the first later press of another name is runner-up, and exactly one or two buzzes commit |
| `Round.AliceBobCarol` | participant.js:207-221 | Alice, then Bob, then Carol: Alice wins, Bob is runner-up and the buzzer is off, and Carol's buzz does not commit |
| `Scoreboard.RegisterEntry` | participant.js:97-100 | an absent record becomes the name with score 0; an existing record keeps its score, and its display name is filled only when missing |
| `Scoreboard.Register` | participant.js:95-101 | registration writes only the key of the name; an absent record becomes the name with score 0; an existing record keeps its score; its display name is filled only when missing |
| `Scoreboard.RegisterIdempotent` | participant.js:95-101 | registering the same name twice is registering it once |
| `Scoreboard.AddScore` | admin.js:185-189 | the key's score becomes (old score or 0) + delta; its name and every other key are unchanged |
| `Scoreboard.AddsCommute` | admin.js:186-189 | two score adjustments commute, so concurrent adjustments give an order-independent total |
| `Scoreboard.AddExamples` | admin.js:186-189 | from score 0, +10 then -5 gives 5 and +10 twice gives 20 |
| `Scoreboard.RegisterAddCommute` | participant.js:95-101 | registration racing a score adjustment on the same record gives the same record in either order |
| `Scoreboard.RegisterResetCommute` | participant.js:95-101 | registration racing a score reset on the same record gives the same record in either order |
| `Scoreboard.ResetScore` | admin.js:192-194 | the key's score becomes 0, its display name is kept, and every other key is unchanged |
| `Scoreboard.DeleteEntry` | admin.js:196-199 | only when confirmed, exactly the one key is removed and every other entry is unchanged |
| `Scoreboard.ClearAll` | admin.js:143-147 | when confirmed every entry is removed; otherwise nothing changes |
| `Scoreboard.EnumerationSize` | admin.js:155 | a listing of the scoreboard with distinct keys that covers every record has exactly one entry per record |
| `Scoreboard.RowsOf` | admin.js:155-159 | one row per entry, in entry order |
| `Scoreboard.DescendingPairwise` | admin.js:161 | in a list ordered by the comparator, every row scores at least as much as every later row |
| `Scoreboard.Insert` | admin.js:161 | inserting into a descending row list keeps it descending and adds exactly that row |
| `Scoreboard.SortByScore` | admin.js:161 | the sorted rows are in non-increasing score order and are a permutation of the input |
| `Scoreboard.Rows` | admin.js:153-161 | the table rows are in non-increasing score order and are a permutation of the entries' rows |
| `Scoreboard.RowsCount` | admin.js:153-164 | for the entries in any order: as many rows as records, and "No participants" iff the scoreboard is empty |
| `Scoreboard.RowsCoverRecords` | admin.js:155-159 | every record has a row whose name is the display name, or the key when that is missing, and whose score is the stored score |
| `Scoreboard.RowsOnlyRecords` | admin.js:155-159 | every row is the row of a record, with the same name fallback and score |
| `Participant.Classify` | participant.js:166-184 | exactly one of WINNER, RUNNER-UP, CLOSED, WAITING, 1/2 FILLED, LIVE, each characterised outright; CLOSED needs a filled runner-up that is not the caller |
| `Participant.BuzzCommitsIffOpenStatus` | participant.js:166-184 | on a round satisfying the invariant, the caller's buzz would commit iff the status is LIVE or 1/2 FILLED |
| `Participant.ButtonDisabled` | participant.js:193-197 | the button is disabled without a name, after a buzz in this round, and on a full round satisfying the invariant; it is enabled on a freshly opened round for a named participant who has not buzzed |
| `Participant.EnabledButtonStatus` | participant.js:193-197 | an enabled button means LIVE, 1/2 FILLED or WINNER; in the WINNER case the transaction refuses the press |
| `Participant.Session.constructor` | participant.js:31-34 | a fresh page has no name, no buzz flag, an unlocked name field and the given local storage |
| `Participant.Session.Init` | participant.js:81-93 | a name in local storage is taken and locked, and the participant is registered under it; otherwise nothing changes |
| `Participant.Session.SaveName` | participant.js:116-133 | a name that is empty after trimming (or a locked field) changes nothing; otherwise the trimmed name is taken, stored, locked and registered, with key `EncodeKey(input)` |
| `Participant.Session.OnRoundSnapshot` | participant.js:137-198 | the buzz flag is cleared only by an enabled round with both slots empty; the status is `Classify`; the button is disabled iff `ButtonDisabled` holds: no name, the buzzer off, the flag set, or both slots filled |
| `Participant.Session.Click` | participant.js:201-228 | without a name nothing happens; otherwise the flag is set and the buzz transaction runs; the outcome is Committed iff it commits and TooLate iff it aborts; the store invariant is kept |
| `Admin.PanelOf` | admin.js:87-121 | Enable is disabled iff the buzzer is on and Disable iff it is off; the status text follows winner, runner-up and flag as in the console; the shown winner and runner-up names are those of the pressers |
| `Admin.ExactlyOneToggleUsable` | admin.js:118-121 | exactly one of Enable and Disable can be pressed |
| `Admin.BothSelectedMeansDisabled` | admin.js:94-96 | on a round satisfying the invariant, "Winner & Runner-Up Selected" goes with a disabled buzzer |
| `Admin.Fires` | admin.js:77-80 | the alert needs a filled slot; it never sounds once both slots were seen filled, nor for the snapshot last seen; after two empty slots it sounds iff a slot is filled |
| `Admin.AlertDetector.constructor` | admin.js:69-70 | the detector starts with both remembered slots empty |
| `Admin.AlertDetector.OnRoundSnapshot` | admin.js:72-122 | the alert sounds iff `Fires` holds, that is iff a slot went from empty to filled; afterwards the remembered slots equal the snapshot's; the panel is `PanelOf` of the snapshot |
| `Admin.RepeatedSnapshotIsSilent` | admin.js:77-85 | delivering the same snapshot twice never sounds the alert on the second delivery |
| `Admin.AlertsBounded` | admin.js:77-85 | while no slot is emptied, each slot sounds the alert at most once, so there are at most two alerts |
| `Admin.DropKeepsMonotone` | admin.js:72-85 | a snapshot sequence that skips an intermediate snapshot still never empties a slot |
| `Admin.RepeatKeepsMonotone` | admin.js:72-85 | a snapshot sequence that repeats a snapshot still never empties a slot |
| `Admin.BuzzTraceAlerts` | admin.js:77-85 | the snapshots of a sequence of buzzes never empty a slot; with every snapshot delivered, the alert sounds once per committed buzz |
| `Admin.RoundAlertsAtMostTwo` | admin.js:77-85 | after Enable, the host hears one alert per committed buzz, at most two |

## Left out

- Store set-up, anonymous sign-in and the connection gating (participant.js:14-17, 67-75; admin.js:17-20). These are calls into the store's library.
- Retry-on-conflict inside `runTransaction` and the fan-out of snapshots to subscribers. These are the store's own concurrency. Each transaction is one atomic step here. A snapshot sequence may skip or repeat states (`Admin.DropKeepsMonotone`, `Admin.RepeatKeepsMonotone`).
- Sound generation (participant.js:46-65; admin.js:45-64). It uses floating point and a browser API. The model keeps only whether the alert sounds (`alert`) or the click committed (`ClickOutcome`).
- Markup, CSS classes, helper texts, `formatTime` (locale-dependent) and the own-score listener `listenToOwnScore` (participant.js:104-112). That listener only renders text.
- `Scoreboard.SortByScore`: the model sorts stably, but its contract does not state stability. The model also leaves the entry order of `Object.entries` open (`Scoreboard.Enumerates`). So the order among rows of equal score is not specified.
- `Scoreboard.AddScore`: `Number(btn.dataset.add)` is only ever +10 or -5. The model accepts any integer delta. Scores are unbounded integers. The store's number limits are not modelled.
- `Round.Update`: the store deletes a record left with no fields. The model always yields a record. No host command writes such a patch, because every one writes `buzzerEnabled`.
- A stored name that trims to empty would make the registration address the `scores` root itself. The model treats it as the key `""`. Local storage only ever receives trimmed, non-empty names.
- The DOM's refusal to deliver clicks to a disabled button is modelled only for the name field (`Session.nameLocked`). The buzz handler is modelled as it runs when invoked. The store's transaction, not the button, is the guard.
- `Participant.Session.SaveName`, `Participant.Session.Init`: the store's own key validation is not modelled. The store refuses keys with ASCII control characters (0-31 and 127), and `EncodeKey` keeps those that are not whitespace. With such a name, building the reference at participant.js:97 throws. The name is then saved and locked but never registered, and on reload `init` stops at participant.js:91. The model registers the name in both cases.
