/**
 * The leaderboard's search box and its count of participants eligible for
 * swags. A search keeps, in ranking order, the participants whose name,
 * email or profile status contains the search term, ignoring case.
 */
module Search {
  import opened Wrappers
  import opened Text
  import opened Records
  import opened Ranking
  import opened TableConfig
  import opened LeaderboardApi

  /** The fields a search looks at, in the order it looks at them. */
  const SearchFieldKeys: seq<string> := [UserNameKey, UserEmailKey, ProfileStatusKey]

  /** The TypeError of calling `toLowerCase` on a number: a search reaching
      a field that holds a non-zero number fails. */
  datatype SearchError = NotText

  /** `values.filter(Boolean)`. */
  function TruthyValues(vs: seq<Option<Value>>): (r: seq<Value>)
    ensures forall v :: v in r <==> exists i :: 0 <= i < |vs| && vs[i] == Some(v) && Truthy(vs[i])
  {
    if vs == [] then []
    else
      var rest := TruthyValues(vs[1..]);
      assert forall i :: 1 <= i < |vs| ==> vs[i] == vs[1..][i - 1];
      (if Truthy(vs[0]) then [vs[0].value] else []) + rest
  }

  /** The search fields of a participant that are present and non-empty. */
  function PresentFields(p: Participant): seq<Value> {
    TruthyValues([Get(p.fields, SearchFieldKeys[0]), Get(p.fields, SearchFieldKeys[1]),
      Get(p.fields, SearchFieldKeys[2])])
  }

  /** `fields.some(field => field.toLowerCase().includes(needle))`, which
      stops at the first field that contains the needle. */
  function SomeFieldContains(fields: seq<Value>, needle: string): Result<bool, SearchError> {
    if fields == [] then Success(false)
    else match fields[0]
      case Num(_) => Failure(NotText)
      case Str(s) => if Contains(Lower(s), needle) then Success(true) else SomeFieldContains(fields[1..], needle)
  }

  /** `data.filter(...)`, which stops at the first failing call. */
  function KeepMatching(data: seq<Participant>, needle: string): Result<seq<Participant>, SearchError> {
    if data == [] then Success([])
    else match SomeFieldContains(PresentFields(data[0]), needle)
      case Failure(e) => Failure(e)
      case Success(keep) =>
        match KeepMatching(data[1..], needle)
        case Failure(e) => Failure(e)
        case Success(rest) => Success(if keep then [data[0]] + rest else rest)
  }

  /** `searchname(term)` on the ranked list: the list the table shows next. */
  function SearchParticipants(data: seq<Participant>, term: string): Result<seq<Participant>, SearchError> {
    if Trim(term) == [] then Success(data) else KeepMatching(data, Lower(term))
  }

  // ---------------------------------------------------------------------
  // the search, stated without evaluation order

  /** The field is present, holds non-empty text, and contains the term in
      any case. */
  predicate FieldMatches(v: Option<Value>, term: string) {
    v.Some? && v.value.Str? && v.value.s != [] && Contains(Lower(v.value.s), Lower(term))
  }

  /** Some search field of the participant matches the term. */
  predicate MatchesTerm(p: Participant, term: string) {
    exists i :: 0 <= i < |SearchFieldKeys| && FieldMatches(Get(p.fields, SearchFieldKeys[i]), term)
  }

  /** The field cannot make the search fail: it is missing, text, or 0. */
  predicate SearchableValue(v: Option<Value>) {
    v.None? || v.value.Str? || v.value == Num(0)
  }

  predicate Searchable(r: Record) {
    forall i :: 0 <= i < |SearchFieldKeys| ==> SearchableValue(Get(r, SearchFieldKeys[i]))
  }

  /** The participants that match the term, in list order. */
  function MatchingOf(data: seq<Participant>, term: string): seq<Participant> {
    if data == [] then []
    else (if MatchesTerm(data[0], term) then [data[0]] else []) + MatchingOf(data[1..], term)
  }

  /** r is s with some elements left out, the others kept in order. */
  predicate IsSubsequence(r: seq<Participant>, s: seq<Participant>)
    decreases |s|
  {
    if r == [] then true
    else if s == [] then false
    else (r[0] == s[0] && IsSubsequence(r[1..], s[1..])) || IsSubsequence(r, s[1..])
  }

  lemma {:induction false} MatchingOfIsSubsequence(data: seq<Participant>, term: string)
    ensures IsSubsequence(MatchingOf(data, term), data)
  {
    if data != [] {
      MatchingOfIsSubsequence(data[1..], term);
      var rest := MatchingOf(data[1..], term);
      if MatchesTerm(data[0], term) {
        var r := [data[0]] + rest;
        assert r[0] == data[0] && r[1..] == rest;
      } else {
        assert MatchingOf(data, term) == [] + rest == rest;
      }
    }
  }

  lemma {:induction false} SomeFieldContainsText(fields: seq<Value>, needle: string)
    requires forall i :: 0 <= i < |fields| ==> fields[i].Str?
    ensures SomeFieldContains(fields, needle) ==
      Success(exists i :: 0 <= i < |fields| && Contains(Lower(fields[i].s), needle))
  {
    if fields != [] {
      SomeFieldContainsText(fields[1..], needle);
      if !Contains(Lower(fields[0].s), needle) {
        assert forall i :: 1 <= i < |fields| ==> fields[i] == fields[1..][i - 1];
        assert (exists i :: 0 <= i < |fields| && Contains(Lower(fields[i].s), needle)) ==
          (exists i :: 0 <= i < |fields[1..]| && Contains(Lower(fields[1..][i].s), needle));
      }
    }
  }

  /** For a searchable record the evaluation succeeds, and it keeps the
      participant exactly when one of its fields matches. */
  lemma {:induction false} KeepDecision(p: Participant, term: string)
    requires Searchable(p.fields)
    ensures SomeFieldContains(PresentFields(p), Lower(term)) == Success(MatchesTerm(p, term))
  {
    var vs := [Get(p.fields, SearchFieldKeys[0]), Get(p.fields, SearchFieldKeys[1]),
      Get(p.fields, SearchFieldKeys[2])];
    var fields := PresentFields(p);
    assert forall i :: 0 <= i < 3 ==> SearchableValue(vs[i]);
    forall i | 0 <= i < |fields| ensures fields[i].Str? {
      assert fields[i] in fields;
    }
    SomeFieldContainsText(fields, Lower(term));
    if MatchesTerm(p, term) {
      var k :| 0 <= k < |SearchFieldKeys| && FieldMatches(Get(p.fields, SearchFieldKeys[k]), term);
      assert vs[k] == Get(p.fields, SearchFieldKeys[k]);
      assert vs[k].value in fields;
    } else {
      forall i | 0 <= i < |fields| ensures !Contains(Lower(fields[i].s), Lower(term)) {
        assert fields[i] in fields;
        var k :| 0 <= k < |vs| && vs[k] == Some(fields[i]) && Truthy(vs[k]);
        assert !FieldMatches(Get(p.fields, SearchFieldKeys[k]), term);
      }
    }
  }

  /** A blank term shows the whole list again, unchanged. */
  lemma {:induction false} BlankTermKeepsAll(data: seq<Participant>, term: string)
    requires IsBlank(term)
    ensures SearchParticipants(data, term) == Success(data)
  {
    TrimEmptyIffBlank(term);
  }

  /** On searchable records the filter succeeds and keeps exactly the
      matching participants. */
  lemma {:induction false} KeepMatchingResult(data: seq<Participant>, term: string)
    requires forall k :: 0 <= k < |data| ==> Searchable(data[k].fields)
    ensures KeepMatching(data, Lower(term)) == Success(MatchingOf(data, term))
  {
    if data != [] {
      KeepDecision(data[0], term);
      assert forall k :: 1 <= k < |data| ==> data[1..][k - 1] == data[k];
      KeepMatchingResult(data[1..], term);
      var rest := MatchingOf(data[1..], term);
      assert [] + rest == rest;
    }
  }

  /** The matching participants are the listed ones that match. */
  lemma {:induction false} MatchingOfMembers(data: seq<Participant>, term: string)
    ensures var r := MatchingOf(data, term);
      && |r| <= |data|
      && (forall p :: p in r <==> p in data && MatchesTerm(p, term))
  {
    if data != [] {
      MatchingOfMembers(data[1..], term);
      var rest := MatchingOf(data[1..], term);
      assert data == [data[0]] + data[1..];
      assert [] + rest == rest;
    }
  }

  lemma {:induction false} SubsequenceMembers(r: seq<Participant>, s: seq<Participant>)
    requires IsSubsequence(r, s)
    ensures forall x :: x in r ==> x in s
    decreases |s|
  {
    if r != [] {
      assert s == [s[0]] + s[1..];
      if r[0] == s[0] && IsSubsequence(r[1..], s[1..]) {
        SubsequenceMembers(r[1..], s[1..]);
        assert r == [r[0]] + r[1..];
      } else {
        SubsequenceMembers(r, s[1..]);
      }
    }
  }

  lemma {:induction false} SortedTail(s: seq<Participant>)
    requires s != [] && Sorted(s)
    ensures Sorted(s[1..])
  {
    forall i, j | 0 <= i < j < |s[1..]| ensures Compare(s[1..][i], s[1..][j]) <= 0 {
      assert s[1..][i] == s[i + 1] && s[1..][j] == s[j + 1];
    }
  }

  /** Keeping some participants of a sorted list, in list order, leaves a
      sorted list. */
  lemma {:induction false} SubsequenceSorted(r: seq<Participant>, s: seq<Participant>)
    requires IsSubsequence(r, s) && Sorted(s)
    ensures Sorted(r)
    decreases |s|
  {
    if r != [] {
      SortedTail(s);
      if r[0] == s[0] && IsSubsequence(r[1..], s[1..]) {
        SubsequenceSorted(r[1..], s[1..]);
        SubsequenceMembers(r[1..], s[1..]);
        forall i, j | 0 <= i < j < |r| ensures Compare(r[i], r[j]) <= 0 {
          if i == 0 {
            assert r[j] == r[1..][j - 1];
            assert r[j] in s[1..];
            var m :| 0 <= m < |s[1..]| && s[1..][m] == r[j];
            assert s[m + 1] == r[j];
          } else {
            assert r[i] == r[1..][i - 1] && r[j] == r[1..][j - 1];
          }
        }
      } else {
        SubsequenceSorted(r, s[1..]);
      }
    }
  }

  /** A term that is not blank yields the participants that match it, in
      the ranking's order, when every record's search fields are text. */
  lemma {:induction false} SearchResult(data: seq<Participant>, term: string)
    requires !IsBlank(term)
    requires forall k :: 0 <= k < |data| ==> Searchable(data[k].fields)
    ensures SearchParticipants(data, term) == Success(MatchingOf(data, term))
    ensures var r := SearchParticipants(data, term).value;
      && |r| <= |data| && IsSubsequence(r, data)
      && (forall p :: p in r <==> p in data && MatchesTerm(p, term))
      && (Sorted(data) ==> Sorted(r))
  {
    TrimEmptyIffBlank(term);
    KeepMatchingResult(data, term);
    MatchingOfMembers(data, term);
    MatchingOfIsSubsequence(data, term);
    if Sorted(data) {
      SubsequenceSorted(MatchingOf(data, term), data);
    }
  }

  /** Every record the API produces is searchable: its name, email and
      profile-status columns are text columns. */
  lemma {:induction false} NormalizedIsSearchable(row: RawRow, rec: Record)
    requires IsNormalizedRow(row, rec)
    ensures Searchable(rec)
  {
    forall i | 0 <= i < |SearchFieldKeys| ensures SearchableValue(Get(rec, SearchFieldKeys[i])) {
      SearchKeyIsText(i);
      TextFieldSearchable(row, rec, SearchFieldKeys[i]);
    }
  }

  /** The search fields are text columns. */
  lemma {:induction false} SearchKeyIsText(i: nat)
    requires i < |SearchFieldKeys|
    ensures !IsNumericField(SearchFieldKeys[i])
  {
    if i == 0 {
      UserNameColumnIsText();
    } else if i == 1 {
      UserEmailColumnIsText();
    } else {
      ProfileStatusColumnIsText();
    }
  }

  lemma {:induction false} TextFieldSearchable(row: RawRow, rec: Record, key: string)
    requires IsNormalizedRow(row, rec) && !IsNumericField(key)
    ensures SearchableValue(Get(rec, key))
  {
    if key in row {
      assert rec[key] == Str(row[key]);
    }
  }

  /** Searching the ranking of the records the API produces never fails,
      and what it shows is still in ranking order. */
  lemma {:induction false} SearchOfNormalizedRanking(rows: seq<RawRow>, data: seq<Record>, r: seq<Participant>, term: string)
    requires |rows| == |data| && forall k :: 0 <= k < |data| ==> IsNormalizedRow(rows[k], data[k])
    requires IsRanking(data, r)
    ensures SearchParticipants(r, term).Success?
    ensures IsSubsequence(SearchParticipants(r, term).value, r)
    ensures Sorted(SearchParticipants(r, term).value)
  {
    RankingIsPermutation(data, r);
    forall k | 0 <= k < |r| ensures Searchable(r[k].fields) {
      NormalizedIsSearchable(rows[r[k].originalIndex], data[r[k].originalIndex]);
    }
    if IsBlank(term) {
      BlankTermKeepsAll(r, term);
      IsSubsequenceReflexive(r);
    } else {
      SearchResult(r, term);
    }
  }

  lemma {:induction false} IsSubsequenceReflexive(s: seq<Participant>)
    ensures IsSubsequence(s, s)
  {
    if s != [] {
      IsSubsequenceReflexive(s[1..]);
    }
  }

  // ---------------------------------------------------------------------
  // eligibility count

  predicate IsEligible(r: Record) {
    Get(r, EligibilityField) == Some(Str(EligibleValue))
  }

  /** `data.filter(p => p[field] === eligibleValue).length`. */
  function EligibleCount(s: seq<Participant>): (n: nat)
    ensures n <= |s|
  {
    if s == [] then 0 else (if IsEligible(s[0].fields) then 1 else 0) + EligibleCount(s[1..])
  }

  /** The count is 0 exactly when nobody is eligible, and the length of the
      list exactly when everybody is. */
  lemma {:induction false} EligibleCountExtremes(s: seq<Participant>)
    ensures EligibleCount(s) == 0 <==> forall k :: 0 <= k < |s| ==> !IsEligible(s[k].fields)
    ensures EligibleCount(s) == |s| <==> forall k :: 0 <= k < |s| ==> IsEligible(s[k].fields)
  {
    if s != [] {
      EligibleCountExtremes(s[1..]);
      assert forall k :: 1 <= k < |s| ==> s[k] == s[1..][k - 1];
    }
  }

  /** The number of eligible records among the API's records. */
  function EligibleRecords(data: seq<Record>): nat {
    if data == [] then 0 else (if IsEligible(data[0]) then 1 else 0) + EligibleRecords(data[1..])
  }

  lemma {:induction false} EligibleCountAppend(s: seq<Participant>, t: seq<Participant>)
    ensures EligibleCount(s + t) == EligibleCount(s) + EligibleCount(t)
  {
    if s == [] {
      assert s + t == t;
    } else {
      assert (s + t)[1..] == s[1..] + t;
      EligibleCountAppend(s[1..], t);
    }
  }

  lemma {:induction false} EligibleCountRemove(t: seq<Participant>, k: nat)
    requires k < |t|
    ensures EligibleCount(t) == (if IsEligible(t[k].fields) then 1 else 0) + EligibleCount(t[..k] + t[k + 1..])
  {
    var a, b := t[..k], t[k + 1..];
    SplitAround(t, k);
    EligibleCountAppend(a + [t[k]], b);
    EligibleCountAppend(a, [t[k]]);
    EligibleCountAppend(a, b);
    EligibleCountSingle(t[k]);
  }

  lemma {:induction false} SplitAround(t: seq<Participant>, k: nat)
    requires k < |t|
    ensures t == (t[..k] + [t[k]]) + t[k + 1..]
  {
  }

  lemma {:induction false} EligibleCountSingle(p: Participant)
    ensures EligibleCount([p]) == if IsEligible(p.fields) then 1 else 0
  {
    assert [p][1..] == [];
  }

  lemma {:induction false} MultisetRemove(s: seq<Participant>, t: seq<Participant>, k: nat)
    requires multiset(s) == multiset(t) && s != [] && k < |t| && t[k] == s[0]
    ensures multiset(s[1..]) == multiset(t[..k] + t[k + 1..])
  {
    assert t == t[..k] + [t[k]] + t[k + 1..];
    assert multiset(t) == multiset(t[..k] + t[k + 1..]) + multiset{t[k]};
    assert s == [s[0]] + s[1..];
    assert multiset(s[1..]) == multiset(s) - multiset{s[0]};
  }

  /** Reordering a list does not change its eligible count. */
  lemma {:induction false} EligibleCountPermutation(s: seq<Participant>, t: seq<Participant>)
    requires multiset(s) == multiset(t)
    ensures EligibleCount(s) == EligibleCount(t)
    decreases |s|
  {
    assert |s| == |multiset(s)| == |multiset(t)| == |t|;
    if s != [] {
      assert s[0] in multiset(t);
      var k :| 0 <= k < |t| && t[k] == s[0];
      MultisetRemove(s, t, k);
      EligibleCountPermutation(s[1..], t[..k] + t[k + 1..]);
      EligibleCountRemove(t, k);
    }
  }

  lemma {:induction false} EligibleCountOfFields(s: seq<Participant>)
    ensures EligibleCount(s) == EligibleRecords(Fields(s))
  {
    if s != [] {
      EligibleCountOfFields(s[1..]);
      assert Fields(s)[1..] == Fields(s[1..]);
    }
  }

  /** The count shown beside the ranking is the number of the API's records
      flagged as having completed everything. */
  lemma {:induction false} EligibleCountOfRanking(data: seq<Record>, r: seq<Participant>)
    requires IsRanking(data, r)
    ensures EligibleCount(r) == EligibleRecords(data)
    ensures EligibleCount(r) <= |data|
  {
    EligibleCountPermutation(r, Tag(data));
    EligibleCountOfFields(Tag(data));
    assert Fields(Tag(data)) == data;
    RankingIsPermutation(data, r);
  }
}
