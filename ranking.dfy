/**
 * The leaderboard's ranking: every record is tagged with its position in the
 * API's data and its total score, and the tagged records are sorted in place
 * with redeemed access codes first, then by total score from high to low,
 * then by original position.
 */
module Ranking {
  import opened Wrappers
  import opened Records

  /** A record as the table holds it: the record's own fields, the two tags
      the ranking adds, and three annotations that the table reads but that
      no part of the application sets (None and false stand for undefined). */
  datatype Participant = Participant(
    fields: Record,
    originalIndex: int,
    totalScore: int,
    actualRank: Option<int>,
    totalParticipants: Option<int>,
    isSearchResult: bool)

  /** Skill badges plus arcade games, each `parseInt(...) || 0`. */
  function TotalScore(r: Record): int {
    ParseIntField(Get(r, SkillBadgesKey)) + ParseIntField(Get(r, ArcadeGamesKey))
  }

  /** The records tagged with their positions and total scores. */
  function Tag(data: seq<Record>): seq<Participant> {
    seq(|data|, i requires 0 <= i < |data| =>
      Participant(data[i], i, TotalScore(data[i]), None, None, false))
  }

  /** The records of a list of participants. */
  function Fields(s: seq<Participant>): seq<Record> {
    seq(|s|, i requires 0 <= i < |s| => s[i].fields)
  }

  predicate IsRedeemed(p: Participant) {
    Get(p.fields, RedemptionKey) == Some(Str("Yes"))
  }

  /** 0 for a redeemed access code, 1 otherwise. */
  function StatusRank(p: Participant): int {
    if IsRedeemed(p) then 0 else 1
  }

  /** The sort's comparator: negative when a goes first. */
  function Compare(a: Participant, b: Participant): int {
    if StatusRank(a) != StatusRank(b) then StatusRank(a) - StatusRank(b)
    else if b.totalScore != a.totalScore then b.totalScore - a.totalScore
    else a.originalIndex - b.originalIndex
  }

  predicate Sorted(s: seq<Participant>) {
    forall i, j :: 0 <= i < j < |s| ==> Compare(s[i], s[j]) <= 0
  }

  predicate StrictlySorted(s: seq<Participant>) {
    forall i, j :: 0 <= i < j < |s| ==> Compare(s[i], s[j]) < 0
  }

  /** r is the ranking of data: the tagged records, reordered, in
      comparator order. */
  predicate IsRanking(data: seq<Record>, r: seq<Participant>) {
    multiset(r) == multiset(Tag(data)) && Sorted(r)
  }

  // ---------------------------------------------------------------------
  // the comparator is a total order

  lemma {:induction false} CompareAntisymmetric(a: Participant, b: Participant)
    ensures Compare(a, b) == -Compare(b, a)
  {
  }

  lemma {:induction false} CompareTransitive(a: Participant, b: Participant, c: Participant)
    requires Compare(a, b) <= 0 && Compare(b, c) <= 0
    ensures Compare(a, c) <= 0
  {
  }

  // ---------------------------------------------------------------------
  // sorting

  /** Inserting s[j] into the sorted s[..i + 1]: everything is in order
      except around position j, and what follows j may follow s[j]. */
  predicate Inserting(s: seq<Participant>, i: nat, j: nat) {
    && j <= i < |s|
    && (forall k, l :: 0 <= k < l <= i && k != j && l != j ==> Compare(s[k], s[l]) <= 0)
    && (forall l :: j < l <= i ==> Compare(s[j], s[l]) <= 0)
  }

  function Swapped(s: seq<Participant>, j: nat): seq<Participant>
    requires 0 < j < |s|
  {
    s[j - 1 := s[j]][j := s[j - 1]]
  }

  lemma {:induction false} StartInserting(s: seq<Participant>, i: nat)
    requires i < |s| && Sorted(s[..i])
    ensures Inserting(s, i, i)
  {
    forall k, l | 0 <= k < l <= i && k != i && l != i
      ensures Compare(s[k], s[l]) <= 0
    {
      assert s[..i][k] == s[k] && s[..i][l] == s[l];
    }
  }

  /** Swapping s[j] with a predecessor that must follow it moves the gap
      one place left and keeps the elements. */
  lemma {:induction false} SwapStep(s: seq<Participant>, i: nat, j: nat)
    requires Inserting(s, i, j) && 0 < j && Compare(s[j - 1], s[j]) > 0
    ensures Inserting(Swapped(s, j), i, j - 1)
    ensures multiset(Swapped(s, j)) == multiset(s)
  {
    CompareAntisymmetric(s[j - 1], s[j]);
    var t := Swapped(s, j);
    forall l | j - 1 < l <= i
      ensures Compare(t[j - 1], t[l]) <= 0
    {
    }
  }

  /** Once the element at j is in place, s[..i + 1] is sorted. */
  lemma {:induction false} InsertedSorted(s: seq<Participant>, i: nat, j: nat)
    requires Inserting(s, i, j)
    requires j == 0 || Compare(s[j - 1], s[j]) <= 0
    ensures Sorted(s[..i + 1])
  {
    forall k, l | 0 <= k < l <= i
      ensures Compare(s[k], s[l]) <= 0
    {
      if l == j && k < j - 1 {
        CompareTransitive(s[k], s[j - 1], s[j]);
      }
    }
  }

  /** Moves a[i] left past every element that must follow it. */
  method Insert(a: array<Participant>, i: nat)
    requires i < a.Length && Sorted(a[..i])
    modifies a
    ensures Sorted(a[..i + 1])
    ensures multiset(a[..]) == multiset(old(a[..]))
    ensures a[i + 1..] == old(a[i + 1..])
  {
    StartInserting(a[..], i);
    var j := i;
    while j > 0 && Compare(a[j - 1], a[j]) > 0
      invariant 0 <= j <= i
      invariant Inserting(a[..], i, j)
      invariant multiset(a[..]) == multiset(old(a[..]))
      invariant a[i + 1..] == old(a[i + 1..])
    {
      SwapStep(a[..], i, j);
      ghost var before := a[..];
      a[j - 1], a[j] := a[j], a[j - 1];
      assert a[..] == Swapped(before, j);
      assert a[i + 1..] == before[i + 1..];
      j := j - 1;
    }
    InsertedSorted(a[..], i, j);
  }

  /** Insertion sort with the comparator. */
  method SortInPlace(a: array<Participant>)
    modifies a
    ensures Sorted(a[..])
    ensures multiset(a[..]) == multiset(old(a[..]))
  {
    var i := 0;
    while i < a.Length
      invariant 0 <= i <= a.Length
      invariant Sorted(a[..i])
      invariant multiset(a[..]) == multiset(old(a[..]))
    {
      Insert(a, i);
      i := i + 1;
    }
    assert a[..a.Length] == a[..];
  }

  /** `sortLeaderboard(data)`. */
  method SortLeaderboard(data: seq<Record>) returns (ranked: seq<Participant>)
    ensures IsRanking(data, ranked)
  {
    var tagged := Tag(data);
    var a := new Participant[|data|](i requires 0 <= i < |data| => tagged[i]);
    assert a[..] == tagged;
    SortInPlace(a);
    ranked := a[..];
  }

  // ---------------------------------------------------------------------
  // what a ranking is

  lemma DistinctCount<T>(s: seq<T>, x: T)
    requires forall i, j :: 0 <= i < j < |s| ==> s[i] != s[j]
    ensures multiset(s)[x] <= 1
    decreases |s|
  {
    if s != [] {
      assert s == [s[0]] + s[1..];
      DistinctCount(s[1..], x);
      if x == s[0] {
        assert x !in s[1..];
      }
    }
  }

  lemma DuplicateCount<T>(s: seq<T>, i: nat, j: nat)
    requires i < j < |s| && s[i] == s[j]
    ensures multiset(s)[s[i]] >= 2
  {
    assert s == s[..j] + s[j..];
    assert s[i] in s[..j];
    assert s[j] in s[j..];
  }

  /** Each participant of a ranking is the tagged record at its original
      position, every position occurs, and no position occurs twice: the
      original positions are a permutation of 0 .. |data| - 1. */
  lemma {:induction false} RankingIsPermutation(data: seq<Record>, r: seq<Participant>)
    requires IsRanking(data, r)
    ensures |r| == |data|
    ensures forall k :: 0 <= k < |r| ==>
      0 <= r[k].originalIndex < |data| && r[k] == Tag(data)[r[k].originalIndex]
    ensures forall m :: 0 <= m < |data| ==> Tag(data)[m] in r
    ensures forall i, j :: 0 <= i < j < |r| ==> r[i].originalIndex != r[j].originalIndex
  {
    var t := Tag(data);
    assert |r| == |multiset(r)| == |multiset(t)| == |data|;
    forall k | 0 <= k < |r|
      ensures 0 <= r[k].originalIndex < |data| && r[k] == t[r[k].originalIndex]
    {
      assert r[k] in multiset(r);
      var m :| 0 <= m < |t| && t[m] == r[k];
    }
    forall m | 0 <= m < |data|
      ensures t[m] in r
    {
      assert t[m] in multiset(t);
    }
    forall i, j | 0 <= i < j < |r|
      ensures r[i].originalIndex != r[j].originalIndex
    {
      if r[i].originalIndex == r[j].originalIndex {
        DuplicateCount(r, i, j);
        DistinctCount(t, r[i]);
      }
    }
  }

  /** With distinct positions the comparator never ties, so a ranking is
      strictly ordered. */
  lemma {:induction false} RankingIsStrict(data: seq<Record>, r: seq<Participant>)
    requires IsRanking(data, r)
    ensures StrictlySorted(r)
  {
    RankingIsPermutation(data, r);
  }

  /** The order a ranking shows: redeemed access codes before all others,
      total score non-increasing among equal status, and original position
      increasing among equal status and score. */
  lemma {:induction false} RankingOrder(data: seq<Record>, r: seq<Participant>)
    requires IsRanking(data, r)
    ensures forall i, j :: 0 <= i < j < |r| && IsRedeemed(r[j]) ==> IsRedeemed(r[i])
    ensures forall i, j :: 0 <= i < j < |r| && IsRedeemed(r[i]) == IsRedeemed(r[j]) ==>
      r[i].totalScore >= r[j].totalScore
    ensures forall i, j ::
      (0 <= i < j < |r| && IsRedeemed(r[i]) == IsRedeemed(r[j]) && r[i].totalScore == r[j].totalScore)
      ==> r[i].originalIndex < r[j].originalIndex
    ensures forall k :: 0 <= k < |r| ==> r[k].totalScore == TotalScore(r[k].fields)
  {
    RankingIsStrict(data, r);
    RankingIsPermutation(data, r);
  }

  /** Two strictly ordered lists with the same elements start alike: each
      one's first element is the least element of both. */
  lemma {:induction false} StrictlySortedHeads(s: seq<Participant>, t: seq<Participant>)
    requires multiset(s) == multiset(t) && s != []
    requires StrictlySorted(s) && StrictlySorted(t)
    ensures t != [] && t[0] == s[0]
  {
    assert s[0] in multiset(t);
    var p :| 0 <= p < |t| && t[p] == s[0];
    assert t[0] in multiset(s);
    var q :| 0 <= q < |s| && s[q] == t[0];
    if p != 0 {
      assert Compare(s[0], s[q]) < 0;
      assert Compare(t[0], t[p]) < 0;
      CompareAntisymmetric(s[0], t[0]);
      assert false;
    }
  }

  lemma {:induction false} MultisetTails(s: seq<Participant>, t: seq<Participant>)
    requires multiset(s) == multiset(t) && s != [] && t != [] && s[0] == t[0]
    ensures multiset(s[1..]) == multiset(t[1..])
  {
    assert s == [s[0]] + s[1..];
    assert t == [t[0]] + t[1..];
    assert multiset(s[1..]) == multiset(s) - multiset{s[0]};
    assert multiset(t[1..]) == multiset(t) - multiset{t[0]};
  }

  /** Two strictly ordered lists with the same elements are equal. */
  lemma {:induction false} StrictlySortedUnique(s: seq<Participant>, t: seq<Participant>)
    requires multiset(s) == multiset(t)
    requires StrictlySorted(s) && StrictlySorted(t)
    ensures s == t
    decreases |s|
  {
    if s == [] {
      assert |t| == |multiset(t)| == 0;
    } else {
      StrictlySortedHeads(s, t);
      MultisetTails(s, t);
      assert StrictlySorted(s[1..]) && StrictlySorted(t[1..]) by {
        assert forall i :: 0 <= i < |s| - 1 ==> s[1..][i] == s[i + 1];
        assert forall i :: 0 <= i < |t| - 1 ==> t[1..][i] == t[i + 1];
      }
      StrictlySortedUnique(s[1..], t[1..]);
      assert s == [s[0]] + s[1..];
      assert t == [t[0]] + t[1..];
    }
  }

  /** A list has one ranking, whatever the stability of the sort. */
  lemma {:induction false} RankingUnique(data: seq<Record>, r1: seq<Participant>, r2: seq<Participant>)
    requires IsRanking(data, r1) && IsRanking(data, r2)
    ensures r1 == r2
  {
    RankingIsStrict(data, r1);
    RankingIsStrict(data, r2);
    StrictlySortedUnique(r1, r2);
  }

  /** Ranking the records of a ranking again keeps their order. */
  lemma {:induction false} ResortKeepsOrder(data: seq<Record>, r: seq<Participant>, again: seq<Participant>)
    requires IsRanking(data, r)
    requires IsRanking(Fields(r), again)
    ensures Fields(again) == Fields(r)
  {
    RankingIsStrict(data, r);
    RankingIsPermutation(data, r);
    var f := Fields(r);
    var t := Tag(f);
    forall i, j | 0 <= i < j < |t|
      ensures Compare(t[i], t[j]) <= 0
    {
      assert StatusRank(t[i]) == StatusRank(r[i]) && StatusRank(t[j]) == StatusRank(r[j]);
      assert Compare(r[i], r[j]) < 0;
    }
    assert IsRanking(f, t);
    RankingUnique(f, again, t);
    assert Fields(t) == f;
  }
}
