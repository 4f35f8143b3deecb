/**
 * The shared round record (`quizState`) and every write made to it: the host's
 * enable, disable and reset commands and the participant's buzz transaction.
 * A transaction of the store is one atomic step here: conflicting calls are
 * serialised by the store, so concurrent buzzes become a sequence of buzzes.
 */
module Round {
  import opened Wrappers

  /** One recorded press of the buzzer. */
  datatype Press = Press(name: string, pressedAt: int)

  /**
   * The round record as every client reads it: a missing `buzzerEnabled` reads
   * as false and a missing slot as null.
   */
  datatype RoundState = RoundState(buzzerEnabled: bool, winner: Option<Press>, runnerUp: Option<Press>)

  /** The disabled, empty round. */
  const Idle := RoundState(false, None, None)

  /** The enabled, empty round. */
  const Open := RoundState(true, None, None)

  /** `snap.val() || {}` with the defaults every listener applies. */
  function View(stored: Option<RoundState>): (r: RoundState)
    ensures stored.Some? ==> r == stored.value
    ensures stored.None? ==> !r.buzzerEnabled && r.winner.None? && r.runnerUp.None?
  {
    stored.GetOr(Idle)
  }

  /**
   * The round invariant: a runner-up needs a winner of another name, and a
   * filled runner-up slot means the buzzer is off.
   */
  predicate Inv(s: RoundState) {
    s.runnerUp.Some? ==> s.winner.Some? && s.runnerUp.value.name != s.winner.value.name && !s.buzzerEnabled
  }

  /** The invariant of the stored value (an absent record satisfies it). */
  predicate StoredInv(stored: Option<RoundState>) {
    stored.Some? ==> Inv(stored.value)
  }

  // ---------------------------------------------------------------------------
  // Host commands

  /**
   * The argument of the store's multi-path `update`: `None` leaves a field as
   * it is; `Some(v)` writes `v` (`Some(None)` writes null, deleting a slot).
   */
  datatype RoundPatch = RoundPatch(buzzerEnabled: Option<bool>, winner: Option<Option<Press>>, runnerUp: Option<Option<Press>>)

  /** The store's `update`: the named fields are written, the others kept. */
  function Update(stored: Option<RoundState>, p: RoundPatch): (r: Option<RoundState>)
    ensures r.Some?
    ensures p.buzzerEnabled.None? ==> r.value.buzzerEnabled == View(stored).buzzerEnabled
    ensures p.winner.None? ==> r.value.winner == View(stored).winner
    ensures p.runnerUp.None? ==> r.value.runnerUp == View(stored).runnerUp
    ensures p.buzzerEnabled.Some? ==> r.value.buzzerEnabled == p.buzzerEnabled.value
    ensures p.winner.Some? ==> r.value.winner == p.winner.value
    ensures p.runnerUp.Some? ==> r.value.runnerUp == p.runnerUp.value
  {
    var s := View(stored);
    Some(RoundState(p.buzzerEnabled.GetOr(s.buzzerEnabled), p.winner.GetOr(s.winner), p.runnerUp.GetOr(s.runnerUp)))
  }

  /** The host's Enable button: an update writing an enabled flag and two null slots. */
  function Enable(stored: Option<RoundState>): (r: Option<RoundState>)
    ensures r == Some(Open)
  {
    Update(stored, RoundPatch(Some(true), Some(None), Some(None)))
  }

  /** The host's Disable button: an update writing only the flag. */
  function Disable(stored: Option<RoundState>): (r: Option<RoundState>)
    ensures r.Some? && !r.value.buzzerEnabled
    ensures r.value.winner == View(stored).winner && r.value.runnerUp == View(stored).runnerUp
  {
    Update(stored, RoundPatch(Some(false), None, None))
  }

  /** The host's Reset button: a `set` that replaces the whole record. */
  function Reset(stored: Option<RoundState>): (r: Option<RoundState>)
    ensures r.Some? && !r.value.buzzerEnabled && r.value.winner.None? && r.value.runnerUp.None?
    ensures StoredInv(r)
  {
    Some(Idle)
  }

  /** Enable is idempotent and forgets the previous round. */
  lemma EnableIdempotent(stored: Option<RoundState>)
    ensures Enable(Enable(stored)) == Enable(stored) == Some(Open)
  {
  }

  /** Reset is idempotent and always yields the disabled, empty round. */
  lemma ResetIdempotent(stored: Option<RoundState>)
    ensures Reset(Reset(stored)) == Reset(stored) == Some(Idle)
  {
  }

  /** The three host commands keep the round invariant. */
  lemma HostCommandsKeepInv(stored: Option<RoundState>)
    requires StoredInv(stored)
    ensures StoredInv(Enable(stored)) && StoredInv(Disable(stored)) && StoredInv(Reset(stored))
  {
  }

  // ---------------------------------------------------------------------------
  // The buzz transaction

  /**
   * The body of the participant's buzz transaction: the new record to commit,
   * or `None` when the transaction returns nothing and aborts.
   */
  function Buzz(cur: Option<RoundState>, caller: string, now: int): (r: Option<RoundState>)
    ensures cur.None? || !cur.value.buzzerEnabled ==> r.None?
    ensures r.Some? ==> cur.Some? && r.value.winner.Some?
    ensures r.Some? && cur.value.winner.Some? ==> r.value.winner == cur.value.winner
    ensures r.Some? && cur.value.runnerUp.Some? ==> r.value.runnerUp == cur.value.runnerUp
    ensures r.Some? && StoredInv(cur) ==> Inv(r.value)
  {
    if cur.None? || !cur.value.buzzerEnabled then None
    else
      var s := cur.value;
      if s.winner.None? then
        Some(s.(winner := Some(Press(caller, now))))
      else if s.runnerUp.None? && s.winner.value.name != caller then
        Some(s.(runnerUp := Some(Press(caller, now)), buzzerEnabled := false))
      else
        None
  }

  /** The stored value after a transaction: its result if it committed, else unchanged. */
  function Commit(stored: Option<RoundState>, result: Option<RoundState>): Option<RoundState> {
    if result.Some? then result else stored
  }

  /** A buzz into an empty winner slot records the caller and changes nothing else. */
  lemma BuzzFillsWinner(s: RoundState, caller: string, now: int)
    requires s.buzzerEnabled && s.winner.None?
    ensures Buzz(Some(s), caller, now) == Some(RoundState(s.buzzerEnabled, Some(Press(caller, now)), s.runnerUp))
  {
  }

  /**
   * With only the winner slot filled, a caller of another name becomes runner-up
   * and switches the buzzer off in the same commit; the winner's own name aborts.
   */
  lemma BuzzFillsRunnerUp(s: RoundState, caller: string, now: int)
    requires s.buzzerEnabled && s.winner.Some? && s.runnerUp.None?
    ensures caller != s.winner.value.name ==>
      Buzz(Some(s), caller, now) == Some(RoundState(false, s.winner, Some(Press(caller, now))))
    ensures caller == s.winner.value.name ==> Buzz(Some(s), caller, now).None?
  {
  }

  /** Once both slots are filled, every buzz aborts. */
  lemma BuzzAfterBothFilledAborts(s: RoundState, caller: string, now: int)
    requires s.winner.Some? && s.runnerUp.Some?
    ensures Buzz(Some(s), caller, now).None?
  {
  }

  /**
   * A name that holds a slot can never buzz again in the same round, whatever
   * its client does: the store's check, not the client's flag, is the guard.
   */
  lemma SlotHolderCannotBuzz(s: RoundState, caller: string, now: int)
    requires Inv(s)
    requires (s.winner.Some? && s.winner.value.name == caller) || (s.runnerUp.Some? && s.runnerUp.value.name == caller)
    ensures Buzz(Some(s), caller, now).None?
  {
  }

  /** In particular a caller whose buzz committed cannot commit a second one. */
  lemma NoSecondCommit(stored: Option<RoundState>, caller: string, t1: int, t2: int)
    requires StoredInv(stored) && Buzz(stored, caller, t1).Some?
    ensures Buzz(Buzz(stored, caller, t1), caller, t2).None?
  {
    var s := Buzz(stored, caller, t1).value;
    SlotHolderCannotBuzz(s, caller, t2);
  }

  // ---------------------------------------------------------------------------
  // Sequences of buzzes

  /** The stored record after the buzzes `presses`, applied in the order the store serialised them. */
  function RunBuzzes(stored: Option<RoundState>, presses: seq<Press>): Option<RoundState>
    decreases |presses|
  {
    if presses == [] then stored
    else RunBuzzes(Commit(stored, Buzz(stored, presses[0].name, presses[0].pressedAt)), presses[1..])
  }

  /** How many of the buzzes `presses` commit. */
  function Commits(stored: Option<RoundState>, presses: seq<Press>): nat
    decreases |presses|
  {
    if presses == [] then 0
    else
      var r := Buzz(stored, presses[0].name, presses[0].pressedAt);
      (if r.Some? then 1 else 0) + Commits(Commit(stored, r), presses[1..])
  }

  /** The number of slots still open to a buzz. */
  function OpenSlots(stored: Option<RoundState>): nat {
    if stored.None? || !stored.value.buzzerEnabled then 0
    else if stored.value.winner.None? then 2
    else if stored.value.runnerUp.None? then 1
    else 0
  }

  /** The first press in `presses` whose name differs from `name`. */
  function FirstOther(presses: seq<Press>, name: string): (r: Option<Press>)
    ensures r.Some? ==> r.value in presses && r.value.name != name
    ensures r.None? ==> forall i :: 0 <= i < |presses| ==> presses[i].name == name
  {
    if presses == [] then None
    else if presses[0].name != name then Some(presses[0])
    else FirstOther(presses[1..], name)
  }

  /** A commit uses up one open slot; an abort leaves the record as it was. */
  lemma BuzzUsesOneSlot(stored: Option<RoundState>, caller: string, now: int)
    requires StoredInv(stored)
    ensures var r := Buzz(stored, caller, now);
      StoredInv(Commit(stored, r)) &&
      (r.Some? ==> OpenSlots(stored) >= 1 && OpenSlots(Commit(stored, r)) == OpenSlots(stored) - 1)
  {
  }

  /**
   * Whatever the interleaving, no more buzzes commit than there are open slots:
   * at most two per round.
   */
  lemma {:induction false} CommitsBounded(stored: Option<RoundState>, presses: seq<Press>)
    requires StoredInv(stored)
    ensures Commits(stored, presses) <= OpenSlots(stored) <= 2
    ensures StoredInv(RunBuzzes(stored, presses))
    decreases |presses|
  {
    if presses != [] {
      var r := Buzz(stored, presses[0].name, presses[0].pressedAt);
      BuzzUsesOneSlot(stored, presses[0].name, presses[0].pressedAt);
      CommitsBounded(Commit(stored, r), presses[1..]);
    }
  }

  /** On a disabled record every buzz aborts and nothing changes. */
  lemma {:induction false} ClosedRoundAbsorbs(s: RoundState, presses: seq<Press>)
    requires !s.buzzerEnabled
    ensures RunBuzzes(Some(s), presses) == Some(s)
    ensures Commits(Some(s), presses) == 0
    decreases |presses|
  {
    if presses != [] {
      ClosedRoundAbsorbs(s, presses[1..]);
    }
  }

  /**
   * With the winner `w` recorded and the buzzer still on, the runner-up is the
   * first later press of another name, and the buzzer stays on only if there is none.
   */
  lemma {:induction false} HalfFilledOutcome(w: Press, presses: seq<Press>)
    ensures var ru := FirstOther(presses, w.name);
      && RunBuzzes(Some(RoundState(true, Some(w), None)), presses) == Some(RoundState(ru.None?, Some(w), ru))
      && Commits(Some(RoundState(true, Some(w), None)), presses) == (if ru.Some? then 1 else 0)
    decreases |presses|
  {
    if presses != [] {
      var p := presses[0];
      if p.name == w.name {
        HalfFilledOutcome(w, presses[1..]);
      } else {
        ClosedRoundAbsorbs(RoundState(false, Some(w), Some(p)), presses[1..]);
      }
    }
  }

  /**
   * From an enabled, empty round: the first press wins, the first later press of
   * another name is runner-up and switches the buzzer off, and every other
   * press aborts. Exactly one buzz commits as winner, at most one as runner-up.
   */
  lemma OpenRoundOutcome(presses: seq<Press>)
    requires presses != []
    ensures var ru := FirstOther(presses[1..], presses[0].name);
      && RunBuzzes(Some(Open), presses) == Some(RoundState(ru.None?, Some(presses[0]), ru))
      && Commits(Some(Open), presses) == (if ru.Some? then 2 else 1)
  {
    HalfFilledOutcome(presses[0], presses[1..]);
  }

  /** The example round: Alice wins, Bob is runner-up, Carol is too late. */
  lemma AliceBobCarol(t1: int, t2: int, t3: int)
    ensures var presses := [Press("Alice", t1), Press("Bob", t2), Press("Carol", t3)];
      && RunBuzzes(Some(Open), presses) == Some(RoundState(false, Some(Press("Alice", t1)), Some(Press("Bob", t2))))
      && Commits(Some(Open), presses) == 2
  {
    var presses := [Press("Alice", t1), Press("Bob", t2), Press("Carol", t3)];
    OpenRoundOutcome(presses);
    assert presses[1..][0] == Press("Bob", t2);
  }
}
