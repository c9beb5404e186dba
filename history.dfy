/**
 * The visit-history projection: the visits of the loaded record, most recent
 * first, one `date:\nnotes\n\n` block each, trimmed.
 */
module History {
  import opened Wrappers
  import opened Records
  import Text

  /** The calendar date of a timestamp: the text before the first `T`, or all of it when there is none. */
  function DatePart(stamp: string): (r: string)
    ensures |r| <= |stamp| && r == stamp[..|r|]
    ensures forall i :: 0 <= i < |r| ==> r[i] != 'T'
    ensures |r| == |stamp| || stamp[|r|] == 'T'
  {
    if stamp == [] || stamp[0] == 'T' then [] else [stamp[0]] + DatePart(stamp[1..])
  }

  /** The notes of a visit; missing notes read as the empty string. */
  function NotesText(v: Visit): (r: string)
    ensures v.notes.None? ==> r == ""
    ensures v.notes.Some? ==> r == v.notes.value
  {
    match v.notes
    case Some(n) => n
    case None => ""
  }

  /** The block one visit contributes to the history: the date, a colon and line break, the notes, a blank line. */
  function Block(v: Visit): string {
    DatePart(v.timestamp.text) + ":\n" + NotesText(v) + "\n\n"
  }

  /** A block starts with the date, then `:` and a line break, then the notes, and ends with a blank line. */
  lemma BlockShape(v: Visit)
    ensures var d, b := DatePart(v.timestamp.text), Block(v);
      |b| == |d| + |NotesText(v)| + 4
      && b[..|d|] == d && b[|d|..|d| + 2] == ":\n"
      && b[|d| + 2..|b| - 2] == NotesText(v) && b[|b| - 2..] == "\n\n"
  {
    var d, n := DatePart(v.timestamp.text), NotesText(v);
    var b := Block(v);
    assert b == d + ":\n" + n + "\n\n";
    assert b[..|d|] == d;
    assert b[|d|..|d| + 2] == ":\n";
    assert b[|d| + 2..|b| - 2] == n;
  }

  /** The blocks of `vs`, in the order of `vs`. */
  function Transcript(vs: seq<Visit>): string {
    if vs == [] then "" else Block(vs[0]) + Transcript(vs[1..])
  }

  /** The transcript is empty exactly when there are no visits, and otherwise opens with the first visit's block. */
  lemma TranscriptStartsWithFirstBlock(vs: seq<Visit>)
    ensures Transcript(vs) == [] <==> vs == []
    ensures vs != [] ==> |Block(vs[0])| <= |Transcript(vs)| && Transcript(vs)[..|Block(vs[0])|] == Block(vs[0])
  {
    if vs != [] {
      assert |Block(vs[0])| >= 4 by {
        BlockShape(vs[0]);
      }
    }
  }

  /** Appending a visit appends its block: the loop's accumulation. */
  lemma {:induction false} TranscriptAppend(vs: seq<Visit>, v: Visit)
    ensures Transcript(vs + [v]) == Transcript(vs) + Block(v)
  {
    if vs == [] {
      assert vs + [v] == [v];
    } else {
      assert (vs + [v])[0] == vs[0] && (vs + [v])[1..] == vs[1..] + [v];
      TranscriptAppend(vs[1..], v);
    }
  }

  /** Most recent first: instants never increase along `vs`. */
  predicate NonIncreasing(vs: seq<Visit>) {
    forall i, j :: 0 <= i < j < |vs| ==> vs[i].timestamp.instant >= vs[j].timestamp.instant
  }

  /** Places `v` in front of the first visit that is not later than it. */
  function Insert(v: Visit, vs: seq<Visit>): (r: seq<Visit>)
    requires NonIncreasing(vs)
    ensures NonIncreasing(r)
    ensures multiset(r) == multiset(vs) + multiset{v}
    ensures |r| == |vs| + 1
    ensures r[0] == v || (vs != [] && r[0] == vs[0])
  {
    if vs == [] || v.timestamp.instant >= vs[0].timestamp.instant then [v] + vs
    else
      var rest := Insert(v, vs[1..]);
      assert vs == [vs[0]] + vs[1..];
      assert vs[0].timestamp.instant >= rest[0].timestamp.instant;
      [vs[0]] + rest
  }

  /**
   * A copy of the visits ordered by descending instant, later instant first.
   * Visits with equal instants keep their stored order, as the stable
   * `Array.prototype.sort` of ECMAScript 2019 and later does.
   */
  function SortByTimeDesc(vs: seq<Visit>): (r: seq<Visit>)
    ensures NonIncreasing(r)
    ensures multiset(r) == multiset(vs)
  {
    if vs == [] then []
    else
      assert vs == [vs[0]] + vs[1..];
      Insert(vs[0], SortByTimeDesc(vs[1..]))
  }

  /** The text of the history box for the current slot: empty when nothing is loaded or the record has no `visits`. */
  function HistoryText(patient: Slot): (r: string)
    ensures (!patient.Holds? || patient.record.visits.None?) ==> r == ""
    ensures r == [] || (!Text.IsSpace(r[0]) && !Text.IsSpace(r[|r| - 1]))
  {
    match patient
    case Holds(rec) =>
      (match rec.visits
       case Some(vs) => Text.Trim(Transcript(SortByTimeDesc(vs)))
       case None => "")
    case _ => ""
  }

  /** `renderVisitHistory`: sort a copy, accumulate the blocks in a loop, trim. */
  method RenderVisitHistory(patient: Slot) returns (text: string)
    ensures text == HistoryText(patient)
  {
    if !patient.Holds? || patient.record.visits.None? {
      return "";
    }
    var sorted := SortByTimeDesc(patient.record.visits.value);
    text := "";
    var i := 0;
    while i < |sorted|
      invariant 0 <= i <= |sorted|
      invariant text == Transcript(sorted[..i])
    {
      TranscriptAppend(sorted[..i], sorted[i]);
      assert sorted[..i + 1] == sorted[..i] + [sorted[i]];
      text := text + Block(sorted[i]);
      i := i + 1;
    }
    assert sorted[..i] == sorted;
    text := Text.Trim(text);
  }

  /** `s` is an order in which the history may list `vs`: a permutation, most recent first. */
  predicate IsDisplayOrder(vs: seq<Visit>, s: seq<Visit>) {
    NonIncreasing(s) && multiset(s) == multiset(vs)
  }

  /** No record, or a record without a `visits` field, or with none recorded, shows nothing. */
  lemma HistoryEmpty(patient: Slot)
    requires !patient.Holds? || patient.record.visits.None? || patient.record.visits == Some([])
    ensures HistoryText(patient) == ""
  {
    if patient.Holds? && patient.record.visits == Some([]) {
      assert Transcript([]) == "";
    }
  }

  /**
   * The history lists every stored visit exactly once, most recent first, one
   * block each, and is trimmed; ties between equal instants may come in any order.
   */
  lemma HistoryIsDisplayOrder(rec: PatientRecord)
    requires rec.visits.Some?
    ensures exists s :: IsDisplayOrder(rec.visits.value, s) && HistoryText(Holds(rec)) == Text.Trim(Transcript(s))
  {
    var s := SortByTimeDesc(rec.visits.value);
    assert HistoryText(Holds(rec)) == Text.Trim(Transcript(s));
    assert IsDisplayOrder(rec.visits.value, s);
  }

  predicate DistinctInstants(vs: seq<Visit>) {
    forall i, j :: 0 <= i < j < |vs| ==> vs[i].timestamp.instant != vs[j].timestamp.instant
  }

  /** The first entries of two display orders of the same visits coincide when instants are distinct. */
  lemma DisplayOrderHeads(a: seq<Visit>, b: seq<Visit>)
    requires NonIncreasing(a) && NonIncreasing(b) && multiset(a) == multiset(b) && DistinctInstants(a)
    requires a != [] && b != []
    ensures a[0] == b[0]
  {
    assert a[0] in multiset(b);
    var k :| 0 <= k < |b| && b[k] == a[0];
    assert b[0] in multiset(a);
    var m :| 0 <= m < |a| && a[m] == b[0];
    assert a[m].timestamp.instant >= a[0].timestamp.instant;
  }

  lemma TailKeepsOrder(a: seq<Visit>)
    requires a != []
    ensures NonIncreasing(a) ==> NonIncreasing(a[1..])
    ensures DistinctInstants(a) ==> DistinctInstants(a[1..])
  {
    if NonIncreasing(a) {
      forall i, j | 0 <= i < j < |a| - 1
        ensures a[1..][i].timestamp.instant >= a[1..][j].timestamp.instant
      {
        assert a[1..][i] == a[i + 1] && a[1..][j] == a[j + 1];
      }
    }
    if DistinctInstants(a) {
      forall i, j | 0 <= i < j < |a| - 1
        ensures a[1..][i].timestamp.instant != a[1..][j].timestamp.instant
      {
        assert a[1..][i] == a[i + 1] && a[1..][j] == a[j + 1];
      }
    }
  }

  lemma MultisetOfTail(a: seq<Visit>)
    requires a != []
    ensures multiset(a[1..]) == multiset(a) - multiset{a[0]}
  {
    assert a == [a[0]] + a[1..];
  }

  /** When no two visits share an instant there is exactly one display order. */
  lemma {:induction false} DisplayOrderUnique(vs: seq<Visit>, a: seq<Visit>, b: seq<Visit>)
    requires IsDisplayOrder(vs, a) && IsDisplayOrder(vs, b) && DistinctInstants(a)
    ensures a == b
    decreases |a|
  {
    assert |a| == |multiset(a)| == |multiset(b)| == |b|;
    if a != [] {
      DisplayOrderHeads(a, b);
      TailKeepsOrder(a);
      TailKeepsOrder(b);
      MultisetOfTail(a);
      MultisetOfTail(b);
      DisplayOrderUnique(a[1..], a[1..], b[1..]);
      assert a == [a[0]] + a[1..] && b == [b[0]] + b[1..];
    }
  }

  lemma DistinctCons(v: Visit, s: seq<Visit>)
    requires DistinctInstants(s)
    requires forall j :: 0 <= j < |s| ==> s[j].timestamp.instant != v.timestamp.instant
    ensures DistinctInstants([v] + s)
  {
    var r := [v] + s;
    forall i, j | 0 <= i < j < |r|
      ensures r[i].timestamp.instant != r[j].timestamp.instant
    {
      assert r[j] == s[j - 1];
      if i > 0 {
        assert r[i] == s[i - 1];
      }
    }
  }

  /** Inserting a visit whose instant is new keeps the instants distinct. */
  lemma {:induction false} InsertKeepsDistinct(v: Visit, s: seq<Visit>)
    requires NonIncreasing(s) && DistinctInstants(s)
    requires forall x :: x in s ==> x.timestamp.instant != v.timestamp.instant
    ensures DistinctInstants(Insert(v, s))
  {
    if s == [] || v.timestamp.instant >= s[0].timestamp.instant {
      forall j | 0 <= j < |s|
        ensures s[j].timestamp.instant != v.timestamp.instant
      {
        assert s[j] in s;
      }
      DistinctCons(v, s);
    } else {
      TailKeepsOrder(s);
      forall x | x in s[1..]
        ensures x.timestamp.instant != v.timestamp.instant
      {
        assert x in s;
      }
      InsertKeepsDistinct(v, s[1..]);
      var rest := Insert(v, s[1..]);
      forall j | 0 <= j < |rest|
        ensures rest[j].timestamp.instant != s[0].timestamp.instant
      {
        assert rest[j] in multiset(rest);
        if rest[j] != v {
          assert rest[j] in multiset(s[1..]);
          var k :| 0 <= k < |s[1..]| && s[1..][k] == rest[j];
          assert s[k + 1] == rest[j];
        }
      }
      DistinctCons(s[0], rest);
    }
  }

  /** Sorting keeps distinct instants distinct. */
  lemma {:induction false} SortKeepsDistinct(vs: seq<Visit>)
    requires DistinctInstants(vs)
    ensures DistinctInstants(SortByTimeDesc(vs))
  {
    if vs != [] {
      TailKeepsOrder(vs);
      SortKeepsDistinct(vs[1..]);
      var s := SortByTimeDesc(vs[1..]);
      forall x | x in s
        ensures x.timestamp.instant != vs[0].timestamp.instant
      {
        assert x in multiset(vs[1..]);
        var k :| 0 <= k < |vs[1..]| && vs[1..][k] == x;
        assert vs[k + 1] == x;
      }
      InsertKeepsDistinct(vs[0], s);
    }
  }

  /** With distinct instants the history does not depend on the order visits are stored in. */
  lemma HistoryIgnoresStoredOrder(rec: PatientRecord, vs: seq<Visit>)
    requires rec.visits.Some? && multiset(vs) == multiset(rec.visits.value)
    requires DistinctInstants(vs)
    ensures HistoryText(Holds(rec.(visits := Some(vs)))) == HistoryText(Holds(rec))
  {
    SortKeepsDistinct(vs);
    DisplayOrderUnique(vs, SortByTimeDesc(vs), SortByTimeDesc(rec.visits.value));
  }

  /** Two visits stored oldest first are listed newest first. */
  lemma HistoryNewestFirst(rec: PatientRecord, older: Visit, newer: Visit)
    requires rec.visits == Some([older, newer])
    requires older.timestamp.instant < newer.timestamp.instant
    ensures HistoryText(Holds(rec)) == Text.Trim(Block(newer) + Block(older))
  {
    SortTwo(older, newer);
    var sorted := [newer, older];
    assert sorted[1..] == [older] && [older][1..] == [];
    assert Transcript([older]) == Block(older) + Transcript([]);
    assert Transcript(sorted) == Block(newer) + Transcript([older]);
    assert Block(older) + "" == Block(older);
  }

  lemma SortTwo(older: Visit, newer: Visit)
    requires older.timestamp.instant < newer.timestamp.instant
    ensures SortByTimeDesc([older, newer]) == [newer, older]
  {
    assert [newer][1..] == [];
    assert SortByTimeDesc([newer]) == Insert(newer, []) == [newer];
    assert [older, newer][1..] == [newer];
    assert Insert(older, [newer]) == [newer] + Insert(older, []);
  }

  /** The date part is the text before the first `T`, exactly. */
  lemma DatePartAt(stamp: string, i: nat)
    requires i < |stamp| && stamp[i] == 'T'
    requires forall j :: 0 <= j < i ==> stamp[j] != 'T'
    ensures DatePart(stamp) == stamp[..i]
  {
  }
}
