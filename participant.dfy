/**
 * The participant page: the status derived from each round snapshot, the
 * buzz button's enabled state, and the session object holding the saved name
 * and the per-round "already buzzed" flag.
 */
module Participant {
  import opened Wrappers
  import opened Keys
  import opened Round
  import opened Scoreboard


  /** The status pill of the participant page. */
  datatype Status = Winner | RunnerUp | Closed | Waiting | HalfFilled | Live

  /** The participant's status for round `s`, seen by the participant named `me`. */
  function Classify(me: string, s: RoundState): (st: Status)
    ensures st == Winner <==> s.winner.Some? && s.winner.value.name == me
    ensures st == RunnerUp <==>
      !(s.winner.Some? && s.winner.value.name == me) && s.runnerUp.Some? && s.runnerUp.value.name == me
    ensures st == Closed <==>
      !(s.winner.Some? && s.winner.value.name == me) && s.runnerUp.Some? && s.runnerUp.value.name != me
    ensures st == Waiting <==> !(s.winner.Some? && s.winner.value.name == me) && s.runnerUp.None? && !s.buzzerEnabled
    ensures st == HalfFilled <==> s.buzzerEnabled && s.winner.Some? && s.winner.value.name != me && s.runnerUp.None?
    ensures st == Live <==> s.buzzerEnabled && s.winner.None? && s.runnerUp.None?
  {
    if s.winner.Some? && s.winner.value.name == me then Winner
    else if s.runnerUp.Some? && s.runnerUp.value.name == me then RunnerUp
    else if s.runnerUp.Some? then Closed
    else if !s.buzzerEnabled then Waiting
    else if s.winner.Some? then HalfFilled
    else Live
  }

  /** Whether the buzz button is disabled. */
  predicate ButtonDisabled(me: string, hasBuzzed: bool, s: RoundState)
    ensures me == "" || hasBuzzed ==> ButtonDisabled(me, hasBuzzed, s)
    ensures Inv(s) && s.runnerUp.Some? ==> ButtonDisabled(me, hasBuzzed, s)
    ensures me != "" && !hasBuzzed && s == Open ==> !ButtonDisabled(me, hasBuzzed, s)
  {
    me == "" || !s.buzzerEnabled || hasBuzzed || (s.winner.Some? && s.runnerUp.Some?)
  }

  /**
   * On a round satisfying the invariant, the statuses LIVE and 1/2 FILLED are
   * exactly the rounds in which this participant's buzz would commit.
   */
  lemma BuzzCommitsIffOpenStatus(me: string, s: RoundState, now: int)
    requires Inv(s)
    ensures Buzz(Some(s), me, now).Some? <==> Classify(me, s) == Live || Classify(me, s) == HalfFilled
  {
  }

  /**
   * On a round satisfying the invariant, an enabled button means LIVE, 1/2
   * FILLED or WINNER; in the WINNER case (a winner who reloaded the page) the
   * store's transaction still refuses the press.
   */
  lemma EnabledButtonStatus(me: string, hasBuzzed: bool, s: RoundState, now: int)
    requires Inv(s) && !ButtonDisabled(me, hasBuzzed, s)
    ensures Classify(me, s) in {Live, HalfFilled, Winner}
    ensures Classify(me, s) == Winner ==> Buzz(Some(s), me, now).None?
  {
  }

  /** What a click on the buzz button led to. */
  datatype ClickOutcome = Ignored | Committed | TooLate

  /** One browser session of the participant page. */
  class Session {
    /** The name the participant registered under ("" before registration). */
    var participantName: string
    /** The participant's scoreboard key. */
    var encodedKey: string
    /** Whether the participant pressed the buzzer in the current round. */
    var hasBuzzedThisRound: bool
    /** Whether the name input and its Save button are disabled. */
    var nameLocked: bool
    /** The name kept in the browser's local storage ("" when none). */
    var storedName: string

    ghost predicate Valid()
      reads this
    {
      && encodedKey == EncodeKey(participantName)
      && nameLocked == (participantName != "")
      && (participantName != "" ==> storedName == participantName)
    }

    /** A fresh page over a browser whose local storage holds `stored`. */
    constructor (stored: string)
      ensures Valid()
      ensures participantName == "" && !hasBuzzedThisRound && !nameLocked && storedName == stored
    {
      participantName := "";
      encodedKey := "";
      hasBuzzedThisRound := false;
      nameLocked := false;
      storedName := stored;
    }

    /**
     * Start-up: a name found in local storage is taken, the input is locked
     * and the participant is registered on `scores`.
     */
    method Init(scores: Scores) returns (scores': Scores)
      requires Valid()
      modifies this`participantName, this`encodedKey, this`nameLocked
      ensures Valid()
      ensures old(storedName) != "" ==> participantName == storedName && nameLocked && scores' == Register(scores, storedName)
      ensures old(storedName) == "" ==> participantName == old(participantName) && scores' == scores
    {
      scores' := scores;
      if storedName != "" {
        participantName := storedName;
        encodedKey := EncodeKey(storedName);
        nameLocked := true;
        scores' := Register(scores, storedName);
      }
    }

    /**
     * The Save button with `input` in the name field. A name that is empty after
     * trimming, or a click while the name is locked, changes nothing.
     */
    method SaveName(input: string, scores: Scores) returns (scores': Scores)
      requires Valid()
      modifies this`participantName, this`encodedKey, this`nameLocked, this`storedName
      ensures Valid()
      ensures old(nameLocked) || Trim(input) == "" ==>
        && scores' == scores && participantName == old(participantName)
        && nameLocked == old(nameLocked) && storedName == old(storedName)
      ensures !old(nameLocked) && Trim(input) != "" ==>
        && participantName == Trim(input) && storedName == Trim(input) && nameLocked
        && encodedKey == EncodeKey(input)
        && scores' == Register(scores, Trim(input))
    {
      scores' := scores;
      if nameLocked {
        return;
      }
      var val := Trim(input);
      if val == "" {
        return;
      }
      participantName := val;
      encodedKey := EncodeKey(val);
      storedName := val;
      nameLocked := true;
      TrimIdempotent(input);
      scores' := Register(scores, val);
    }

    /**
     * A new round snapshot: the "already buzzed" flag is cleared by an enabled
     * round with both slots empty and kept otherwise; the status and the
     * button's state are derived from the snapshot.
     */
    method OnRoundSnapshot(snap: Option<RoundState>) returns (status: Status, buttonDisabled: bool)
      requires Valid()
      modifies this`hasBuzzedThisRound
      ensures Valid()
      ensures hasBuzzedThisRound == (old(hasBuzzedThisRound) && View(snap) != Open)
      ensures status == Classify(participantName, View(snap))
      ensures buttonDisabled == ButtonDisabled(participantName, hasBuzzedThisRound, View(snap))
    {
      var s := View(snap);
      if s.buzzerEnabled && s.winner.None? && s.runnerUp.None? {
        hasBuzzedThisRound := false;
      }
      status := Classify(participantName, s);
      buttonDisabled := ButtonDisabled(participantName, hasBuzzedThisRound, s);
    }

    /**
     * A click on the buzz button, run against the stored round `store` at time
     * `now`: without a name nothing happens; otherwise the flag is set and the
     * buzz transaction runs, committing or being too late.
     */
    method Click(store: Option<RoundState>, now: int) returns (store': Option<RoundState>, outcome: ClickOutcome)
      requires Valid()
      modifies this`hasBuzzedThisRound
      ensures Valid()
      ensures participantName == "" ==>
        outcome == Ignored && store' == store && hasBuzzedThisRound == old(hasBuzzedThisRound)
      ensures participantName != "" ==>
        && hasBuzzedThisRound
        && store' == Commit(store, Buzz(store, participantName, now))
        && (outcome == Committed <==> Buzz(store, participantName, now).Some?)
        && (outcome == TooLate <==> Buzz(store, participantName, now).None?)
      ensures StoredInv(store) ==> StoredInv(store')
    {
      if participantName == "" {
        return store, Ignored;
      }
      hasBuzzedThisRound := true;
      var result := Buzz(store, participantName, now);
      if result.Some? {
        store', outcome := result, Committed;
      } else {
        store', outcome := store, TooLate;
      }
    }
  }
}
