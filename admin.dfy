/**
 * The host console: the panel derived from each round snapshot, and the alert
 * that sounds when a winner or runner-up slot becomes filled.
 */
module Admin {
  import opened Wrappers
  import opened Round

  /** The status line of the host console. */
  datatype StatusText = BothSelected | WinnerSelected | WaitingForBuzz | BuzzerDisabled

  /** What the host console shows for one round snapshot (markup and times left out). */
  datatype Panel = Panel(
    buzzerLabelEnabled: bool,
    status: StatusText,
    winnerName: Option<string>,
    runnerUpName: Option<string>,
    enableButtonDisabled: bool,
    disableButtonDisabled: bool)

  function NameOf(p: Option<Press>): Option<string> {
    match p
    case None => None
    case Some(press) => Some(press.name)
  }

  /** The host console's rendering of round `s`. */
  function PanelOf(s: RoundState): (p: Panel)
    ensures p.buzzerLabelEnabled == s.buzzerEnabled
    ensures p.enableButtonDisabled == s.buzzerEnabled && p.disableButtonDisabled == !s.buzzerEnabled
    ensures p.status == BothSelected <==> s.winner.Some? && s.runnerUp.Some?
    ensures p.status == WinnerSelected <==> s.winner.Some? && s.runnerUp.None?
    ensures p.status == WaitingForBuzz <==> s.winner.None? && s.buzzerEnabled
    ensures p.status == BuzzerDisabled <==> s.winner.None? && !s.buzzerEnabled
    ensures p.winnerName.Some? <==> s.winner.Some?
    ensures p.runnerUpName.Some? <==> s.runnerUp.Some?
    ensures s.winner.Some? ==> p.winnerName == Some(s.winner.value.name)
    ensures s.runnerUp.Some? ==> p.runnerUpName == Some(s.runnerUp.value.name)
  {
    var status :=
      if s.winner.Some? then (if s.runnerUp.Some? then BothSelected else WinnerSelected)
      else if s.buzzerEnabled then WaitingForBuzz
      else BuzzerDisabled;
    Panel(s.buzzerEnabled, status, NameOf(s.winner), NameOf(s.runnerUp), s.buzzerEnabled, !s.buzzerEnabled)
  }

  /** Exactly one of Enable and Disable can be pressed. */
  lemma ExactlyOneToggleUsable(s: RoundState)
    ensures PanelOf(s).enableButtonDisabled != PanelOf(s).disableButtonDisabled
  {
  }

  /** On a round satisfying the invariant, "both selected" goes with a disabled buzzer. */
  lemma BothSelectedMeansDisabled(s: RoundState)
    requires Inv(s) && PanelOf(s).status == BothSelected
    ensures !PanelOf(s).buzzerLabelEnabled && PanelOf(s).disableButtonDisabled
  {
  }

  /** Whether a snapshot `s` sounds the alert after the slots `lastWinner` and `lastRunnerUp` were seen. */
  predicate Fires(lastWinner: Option<Press>, lastRunnerUp: Option<Press>, s: RoundState)
    ensures Fires(lastWinner, lastRunnerUp, s) ==> s.winner.Some? || s.runnerUp.Some?
    ensures lastWinner.Some? && lastRunnerUp.Some? ==> !Fires(lastWinner, lastRunnerUp, s)
    ensures lastWinner.None? && lastRunnerUp.None? ==>
      (Fires(lastWinner, lastRunnerUp, s) <==> s.winner.Some? || s.runnerUp.Some?)
    ensures lastWinner == s.winner && lastRunnerUp == s.runnerUp ==> !Fires(lastWinner, lastRunnerUp, s)
  {
    (s.winner.Some? && lastWinner.None?) || (s.runnerUp.Some? && lastRunnerUp.None?)
  }

  /** The edge detector of the host console. */
  class AlertDetector {
    /** The winner slot of the last snapshot seen. */
    var lastWinner: Option<Press>
    /** The runner-up slot of the last snapshot seen. */
    var lastRunnerUp: Option<Press>

    constructor ()
      ensures lastWinner.None? && lastRunnerUp.None?
    {
      lastWinner := None;
      lastRunnerUp := None;
    }

    /**
     * A round snapshot: the alert sounds exactly when a slot went from empty to
     * filled; afterwards the detector remembers this snapshot's slots.
     */
    method OnRoundSnapshot(snap: Option<RoundState>) returns (alert: bool, panel: Panel)
      modifies this
      ensures alert == Fires(old(lastWinner), old(lastRunnerUp), View(snap))
      ensures lastWinner == View(snap).winner && lastRunnerUp == View(snap).runnerUp
      ensures panel == PanelOf(View(snap))
    {
      var s := View(snap);
      alert := (s.winner.Some? && lastWinner.None?) || (s.runnerUp.Some? && lastRunnerUp.None?);
      lastWinner := s.winner;
      lastRunnerUp := s.runnerUp;
      panel := PanelOf(s);
    }
  }

  /** Delivering the same snapshot twice: the second delivery never sounds the alert. */
  method RepeatedSnapshotIsSilent(d: AlertDetector, snap: Option<RoundState>) returns (first: bool, second: bool)
    modifies d
    ensures !second
    ensures first <==> Fires(old(d.lastWinner), old(d.lastRunnerUp), View(snap))
  {
    var panel;
    first, panel := d.OnRoundSnapshot(snap);
    second, panel := d.OnRoundSnapshot(snap);
  }

  // ---------------------------------------------------------------------------
  // Alerts over a sequence of snapshots

  /** How many of the snapshots `snaps`, delivered in order, sound the alert. */
  function Alerts(lastWinner: Option<Press>, lastRunnerUp: Option<Press>, snaps: seq<RoundState>): nat
    decreases |snaps|
  {
    if snaps == [] then 0
    else (if Fires(lastWinner, lastRunnerUp, snaps[0]) then 1 else 0) + Alerts(snaps[0].winner, snaps[0].runnerUp, snaps[1..])
  }

  /** A filled slot stays filled. */
  predicate Keeps(before: Option<Press>, after: Option<Press>) {
    before.Some? ==> after.Some?
  }

  /** Along `snaps`, starting from the given slots, no filled slot is emptied (as within one round). */
  predicate MonotoneFrom(lastWinner: Option<Press>, lastRunnerUp: Option<Press>, snaps: seq<RoundState>)
    decreases |snaps|
  {
    snaps == [] ||
      (Keeps(lastWinner, snaps[0].winner) && Keeps(lastRunnerUp, snaps[0].runnerUp)
       && MonotoneFrom(snaps[0].winner, snaps[0].runnerUp, snaps[1..]))
  }

  function EmptySlots(lastWinner: Option<Press>, lastRunnerUp: Option<Press>): nat {
    (if lastWinner.None? then 1 else 0) + (if lastRunnerUp.None? then 1 else 0)
  }

  /** While no slot is emptied, each slot sounds the alert at most once: at most two alerts. */
  lemma {:induction false} AlertsBounded(lastWinner: Option<Press>, lastRunnerUp: Option<Press>, snaps: seq<RoundState>)
    requires MonotoneFrom(lastWinner, lastRunnerUp, snaps)
    ensures Alerts(lastWinner, lastRunnerUp, snaps) <= EmptySlots(lastWinner, lastRunnerUp) <= 2
    decreases |snaps|
  {
    if snaps != [] {
      AlertsBounded(snaps[0].winner, snaps[0].runnerUp, snaps[1..]);
    }
  }

  /**
   * The store need not deliver every intermediate snapshot: dropping one from a
   * sequence in which no slot is emptied leaves such a sequence.
   */
  lemma {:induction false} DropKeepsMonotone(lastWinner: Option<Press>, lastRunnerUp: Option<Press>, snaps: seq<RoundState>, i: nat)
    requires MonotoneFrom(lastWinner, lastRunnerUp, snaps) && i < |snaps|
    ensures MonotoneFrom(lastWinner, lastRunnerUp, snaps[..i] + snaps[i + 1..])
    decreases |snaps|
  {
    if i == 0 {
      assert snaps[..0] + snaps[1..] == snaps[1..];
      if |snaps| > 1 {
        // Keeps is transitive: the slots before snaps[0] carry over to snaps[1].
        assert snaps[1..][0] == snaps[1];
        assert snaps[1..][1..] == snaps[2..];
      }
    } else {
      var rest := snaps[1..];
      DropKeepsMonotone(snaps[0].winner, snaps[0].runnerUp, rest, i - 1);
      assert snaps[..i] + snaps[i + 1..] == [snaps[0]] + (rest[..i - 1] + rest[i..]);
    }
  }

  /** Delivering a snapshot twice in a row leaves a sequence in which no slot is emptied. */
  lemma {:induction false} RepeatKeepsMonotone(lastWinner: Option<Press>, lastRunnerUp: Option<Press>, snaps: seq<RoundState>, i: nat)
    requires MonotoneFrom(lastWinner, lastRunnerUp, snaps) && i < |snaps|
    ensures MonotoneFrom(lastWinner, lastRunnerUp, snaps[..i + 1] + snaps[i..])
    decreases |snaps|
  {
    if i == 0 {
      assert snaps[..1] + snaps[0..] == [snaps[0]] + snaps;
    } else {
      var rest := snaps[1..];
      RepeatKeepsMonotone(snaps[0].winner, snaps[0].runnerUp, rest, i - 1);
      assert snaps[..i + 1] + snaps[i..] == [snaps[0]] + (rest[..i] + rest[i - 1..]);
    }
  }

  /** The snapshots of the round record after each of the buzzes `presses`. */
  function BuzzTrace(stored: Option<RoundState>, presses: seq<Press>): (trace: seq<RoundState>)
    ensures |trace| == |presses|
    decreases |presses|
  {
    if presses == [] then []
    else
      var next := Commit(stored, Buzz(stored, presses[0].name, presses[0].pressedAt));
      [View(next)] + BuzzTrace(next, presses[1..])
  }

  /**
   * Buzzes never empty a slot, and when every snapshot reaches the host the
   * alert sounds exactly once per committed buzz.
   */
  lemma {:induction false} BuzzTraceAlerts(stored: Option<RoundState>, presses: seq<Press>)
    requires StoredInv(stored)
    ensures MonotoneFrom(View(stored).winner, View(stored).runnerUp, BuzzTrace(stored, presses))
    ensures Alerts(View(stored).winner, View(stored).runnerUp, BuzzTrace(stored, presses)) == Commits(stored, presses)
    decreases |presses|
  {
    if presses != [] {
      var r := Buzz(stored, presses[0].name, presses[0].pressedAt);
      var next := Commit(stored, r);
      BuzzUsesOneSlot(stored, presses[0].name, presses[0].pressedAt);
      BuzzTraceAlerts(next, presses[1..]);
      var trace := BuzzTrace(stored, presses);
      assert trace[0] == View(next) && trace[1..] == BuzzTrace(next, presses[1..]);
    }
  }

  /**
   * After Enable, when every snapshot of the round reaches the host, the host
   * hears one alert per committed buzz, so at most two (AlertsBounded with
   * DropKeepsMonotone and RepeatKeepsMonotone covers skipped and repeated snapshots).
   */
  lemma RoundAlertsAtMostTwo(presses: seq<Press>)
    ensures Alerts(None, None, BuzzTrace(Some(Open), presses)) == Commits(Some(Open), presses) <= 2
  {
    BuzzTraceAlerts(Some(Open), presses);
    CommitsBounded(Some(Open), presses);
  }
}
