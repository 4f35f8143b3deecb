/**
 * The `scores` collection: one record per participant under the participant's
 * key, the participant's registration merge, the host's score actions and the
 * ranked list the host console shows.
 */
module Scoreboard {
  import opened Wrappers
  import opened Keys

  /**
   * One scoreboard record. Every reader treats a missing `displayName` like an
   * empty one and a missing `score` like 0, so the model stores those values.
   */
  datatype Entry = Entry(displayName: string, score: int)

  type Scores = map<string, Entry>

  function Get(scores: Scores, key: string): Option<Entry> {
    if key in scores then Some(scores[key]) else None
  }

  // ---------------------------------------------------------------------------
  // Registration

  /** The body of the registration transaction on the record at the participant's key. */
  function RegisterEntry(current: Option<Entry>, name: string): (r: Entry)
    ensures current.None? ==> r.score == 0 && r.displayName == name
    ensures current.Some? ==> r.score == current.value.score
    ensures current.Some? && current.value.displayName != "" ==> r == current.value
    ensures current.Some? && current.value.displayName == "" ==> r.displayName == name
  {
    match current
    case None => Entry(name, 0)
    case Some(c) => if c.displayName == "" then c.(displayName := name) else c
  }

  /** Registering `name`: the merge is committed at key `EncodeKey(name)`. */
  function Register(scores: Scores, name: string): (r: Scores)
    ensures r.Keys == scores.Keys + {EncodeKey(name)}
    ensures forall k :: k in scores && k != EncodeKey(name) ==> r[k] == scores[k]
    ensures EncodeKey(name) !in scores ==> r[EncodeKey(name)] == Entry(name, 0)
    ensures EncodeKey(name) in scores ==> r[EncodeKey(name)].score == scores[EncodeKey(name)].score
    ensures EncodeKey(name) in scores && scores[EncodeKey(name)].displayName != "" ==>
      r[EncodeKey(name)] == scores[EncodeKey(name)]
    ensures EncodeKey(name) in scores && scores[EncodeKey(name)].displayName == "" ==>
      r[EncodeKey(name)].displayName == name
  {
    var key := EncodeKey(name);
    scores[key := RegisterEntry(Get(scores, key), name)]
  }

  /** Registering the same name twice is registering it once. */
  lemma RegisterIdempotent(scores: Scores, name: string)
    ensures Register(Register(scores, name), name) == Register(scores, name)
  {
  }

  // ---------------------------------------------------------------------------
  // Host score actions

  /**
   * The +10 / -5 buttons: a transaction on `scores/<key>/score` computing
   * `(cur || 0) + delta`. On a missing record it creates one without a name.
   */
  function AddScore(scores: Scores, key: string, delta: int): (r: Scores)
    ensures r.Keys == scores.Keys + {key}
    ensures r[key].score == Get(scores, key).GetOr(Entry("", 0)).score + delta
    ensures r[key].displayName == Get(scores, key).GetOr(Entry("", 0)).displayName
    ensures forall k :: k in scores && k != key ==> r[k] == scores[k]
  {
    var e := Get(scores, key).GetOr(Entry("", 0));
    scores[key := e.(score := e.score + delta)]
  }

  /** The Reset button of a row: an update writing `score: 0`. */
  function ResetScore(scores: Scores, key: string): (r: Scores)
    ensures r.Keys == scores.Keys + {key}
    ensures r[key].score == 0
    ensures key in scores ==> r[key].displayName == scores[key].displayName
    ensures forall k :: k in scores && k != key ==> r[k] == scores[k]
  {
    var e := Get(scores, key).GetOr(Entry("", 0));
    scores[key := e.(score := 0)]
  }

  /** The Delete button of a row; `confirmed` is the answer to the confirmation dialog. */
  function DeleteEntry(scores: Scores, key: string, confirmed: bool): (r: Scores)
    ensures r.Keys == if confirmed then scores.Keys - {key} else scores.Keys
    ensures forall k :: k in r ==> r[k] == scores[k]
  {
    if confirmed then scores - {key} else scores
  }

  /** The Clear Scoreboard button; `confirmed` is the answer to the confirmation dialog. */
  function ClearAll(scores: Scores, confirmed: bool): (r: Scores)
    ensures confirmed ==> r.Keys == {}
    ensures !confirmed ==> r == scores
  {
    if confirmed then map[] else scores
  }

  /** Two score transactions commute, so concurrent adjustments give an order-independent total. */
  lemma AddsCommute(scores: Scores, k1: string, d1: int, k2: string, d2: int)
    ensures AddScore(AddScore(scores, k1, d1), k2, d2) == AddScore(AddScore(scores, k2, d2), k1, d1)
  {
  }

  /** +10 then -5 from 0 gives 5; +10 twice from 0 gives 20. */
  lemma AddExamples(scores: Scores, key: string)
    requires key in scores && scores[key].score == 0
    ensures AddScore(AddScore(scores, key, 10), key, -5)[key].score == 5
    ensures AddScore(AddScore(scores, key, 10), key, 10)[key].score == 20
  {
  }

  /**
   * A participant's registration racing a host's score adjustment on the same
   * record ends the same way in either order: the score is kept and the name filled.
   */
  lemma RegisterAddCommute(scores: Scores, name: string, delta: int)
    ensures Register(AddScore(scores, EncodeKey(name), delta), name) ==
            AddScore(Register(scores, name), EncodeKey(name), delta)
  {
    var key := EncodeKey(name);
    var a := Register(AddScore(scores, key, delta), name);
    var b := AddScore(Register(scores, name), key, delta);
    assert a.Keys == b.Keys;
    assert a[key] == b[key];
  }

  /** The same holds for a registration racing a Reset of the score. */
  lemma RegisterResetCommute(scores: Scores, name: string)
    ensures Register(ResetScore(scores, EncodeKey(name)), name) ==
            ResetScore(Register(scores, name), EncodeKey(name))
  {
    var key := EncodeKey(name);
    var a := Register(ResetScore(scores, key), name);
    var b := ResetScore(Register(scores, name), key);
    assert a.Keys == b.Keys;
    assert a[key] == b[key];
  }

  // ---------------------------------------------------------------------------
  // The ranked rows of the host console

  /** One row of the console's score table. */
  datatype Row = Row(key: string, name: string, score: int)

  /** A record shown as a row: the name falls back to the key. */
  function RowOf(key: string, e: Entry): Row {
    Row(key, if e.displayName != "" then e.displayName else key, e.score)
  }

  /** The keys listed by `entries`. */
  function KeysOf(entries: seq<(string, Entry)>): set<string> {
    set i | 0 <= i < |entries| :: entries[i].0
  }

  /**
   * `entries` lists every record of `scores` once, in some order (the order of
   * `Object.entries`, which the model leaves open).
   */
  predicate Enumerates(entries: seq<(string, Entry)>, scores: Scores) {
    && (forall i :: 0 <= i < |entries| ==> entries[i].0 in scores && scores[entries[i].0] == entries[i].1)
    && (forall i, j :: 0 <= i < j < |entries| ==> entries[i].0 != entries[j].0)
    && scores.Keys <= KeysOf(entries)
  }

  /** `entries.map(...)`: one row per entry, in entry order. */
  function RowsOf(entries: seq<(string, Entry)>): (rows: seq<Row>)
    ensures |rows| == |entries|
    ensures forall i :: 0 <= i < |entries| ==> rows[i] == RowOf(entries[i].0, entries[i].1)
  {
    if entries == [] then [] else [RowOf(entries[0].0, entries[0].1)] + RowsOf(entries[1..])
  }

  /** Rows in order of non-increasing score: each row scores at least as much as the next. */
  predicate Descending(rows: seq<Row>) {
    forall i :: 0 < i < |rows| ==> rows[i - 1].score >= rows[i].score
  }

  /** In a descending list every row scores at least as much as every later row. */
  lemma {:induction false} DescendingPairwise(rows: seq<Row>, i: nat, j: nat)
    requires Descending(rows) && i <= j < |rows|
    ensures rows[i].score >= rows[j].score
    decreases j - i
  {
    if i < j {
      DescendingPairwise(rows, i + 1, j);
    }
  }

  /** Inserts `row` into descending `rows`, before the first row of equal or lower score. */
  function Insert(row: Row, rows: seq<Row>): (r: seq<Row>)
    requires Descending(rows)
    ensures Descending(r)
    ensures multiset(r) == multiset(rows) + multiset{row}
    ensures r[0] == row || (rows != [] && r[0] == rows[0])
  {
    if rows == [] || rows[0].score <= row.score then
      [row] + rows
    else
      var head, rest := rows[0], rows[1..];
      assert rows == [head] + rest;
      var tail := Insert(row, rest);
      [head] + tail
  }

  /** `list.sort((a, b) => b.score - a.score)`: a stable sort by non-increasing score. */
  function SortByScore(rows: seq<Row>): (r: seq<Row>)
    ensures Descending(r)
    ensures multiset(r) == multiset(rows)
  {
    if rows == [] then []
    else
      assert rows == [rows[0]] + rows[1..];
      Insert(rows[0], SortByScore(rows[1..]))
  }

  /** The rows of the console's score table for the records listed by `entries`. */
  function Rows(entries: seq<(string, Entry)>): (rows: seq<Row>)
    ensures Descending(rows)
    ensures multiset(rows) == multiset(RowsOf(entries))
  {
    SortByScore(RowsOf(entries))
  }

  /** The table shows "No participants" exactly when there are no rows. */
  predicate ShowsNoParticipants(rows: seq<Row>) {
    |rows| == 0
  }

  /** The keys of a non-empty listing: its first key and the keys of the rest. */
  lemma KeysOfCons(entries: seq<(string, Entry)>)
    requires entries != []
    ensures KeysOf(entries) == {entries[0].0} + KeysOf(entries[1..])
  {
    var rest := entries[1..];
    forall k | k in KeysOf(entries) ensures k in {entries[0].0} + KeysOf(rest) {
      var i :| 0 <= i < |entries| && entries[i].0 == k;
      if i > 0 { assert rest[i - 1].0 == k; }
    }
    forall k | k in KeysOf(rest) ensures k in KeysOf(entries) {
      var i :| 0 <= i < |rest| && rest[i].0 == k;
      assert entries[i + 1].0 == k;
    }
  }

  /** Distinct keys: the listing has as many entries as keys. */
  lemma {:induction false} KeysOfDistinct(entries: seq<(string, Entry)>)
    requires forall i, j :: 0 <= i < j < |entries| ==> entries[i].0 != entries[j].0
    ensures |KeysOf(entries)| == |entries|
  {
    if entries != [] {
      var rest := entries[1..];
      assert forall i, j :: 0 <= i < j < |rest| ==> rest[i].0 != rest[j].0 by {
        forall i, j | 0 <= i < j < |rest| ensures rest[i].0 != rest[j].0 {
          assert rest[i] == entries[i + 1] && rest[j] == entries[j + 1];
        }
      }
      KeysOfDistinct(rest);
      KeysOfCons(entries);
      forall i | 0 <= i < |rest| ensures rest[i].0 != entries[0].0 {
        assert rest[i] == entries[i + 1];
      }
      assert entries[0].0 !in KeysOf(rest);
    }
  }

  /** A listing of the scoreboard has one entry per record. */
  lemma EnumerationSize(entries: seq<(string, Entry)>, scores: Scores)
    requires Enumerates(entries, scores)
    ensures |entries| == |scores|
  {
    assert KeysOf(entries) == scores.Keys;
    KeysOfDistinct(entries);
    assert |scores| == |scores.Keys|;
  }

  /** The table has one row per record, and shows "No participants" exactly when the scoreboard is empty. */
  lemma RowsCount(entries: seq<(string, Entry)>, scores: Scores)
    requires Enumerates(entries, scores)
    ensures |Rows(entries)| == |scores|
    ensures ShowsNoParticipants(Rows(entries)) <==> scores == map[]
  {
    var rows := Rows(entries);
    EnumerationSize(entries, scores);
    assert |multiset(rows)| == |multiset(RowsOf(entries))|;
    assert scores == map[] <==> |scores| == 0;
  }

  /**
   * Every record has its row: the name is the display name, or the key when the
   * display name is missing, and the score is the stored score.
   */
  lemma RowsCoverRecords(entries: seq<(string, Entry)>, scores: Scores, k: string)
    requires Enumerates(entries, scores) && k in scores
    ensures Row(k, if scores[k].displayName == "" then k else scores[k].displayName, scores[k].score) in Rows(entries)
  {
    var mapped := RowsOf(entries);
    assert k in KeysOf(entries);
    var i :| 0 <= i < |entries| && entries[i].0 == k;
    assert mapped[i] == RowOf(k, scores[k]);
    assert mapped[i] in multiset(Rows(entries));
  }

  /** Every row of the table is the row of a record. */
  lemma RowsOnlyRecords(entries: seq<(string, Entry)>, scores: Scores, row: Row)
    requires Enumerates(entries, scores) && row in Rows(entries)
    ensures row.key in scores
    ensures row.name == if scores[row.key].displayName == "" then row.key else scores[row.key].displayName
    ensures row.score == scores[row.key].score
  {
    var mapped := RowsOf(entries);
    assert row in multiset(mapped);
    var i :| 0 <= i < |mapped| && mapped[i] == row;
  }
}
