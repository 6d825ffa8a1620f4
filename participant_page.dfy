/**
 * The participant page: the lists of completed badges and games parsed
 * from their pipe-separated columns, and the lookup of the participant
 * named by the page's `email` parameter.
 */
module ParticipantPage {
  import opened Wrappers
  import opened Text
  import opened Records
  import opened Uri
  import opened Ranking
  import opened TableRow

  // ---------------------------------------------------------------------
  // badge lists

  /** `pieces.map(b => b.trim())`. */
  function TrimAll(pieces: seq<string>): (r: seq<string>)
    ensures |r| == |pieces|
  {
    seq(|pieces|, i requires 0 <= i < |pieces| => Trim(pieces[i]))
  }

  /** `pieces.filter(b => b.length > 0)`. */
  function NonEmpty(pieces: seq<string>): (r: seq<string>)
    ensures |r| <= |pieces|
  {
    if pieces == [] then []
    else (if pieces[0] != [] then [pieces[0]] else []) + NonEmpty(pieces[1..])
  }

  /** `parseBadges(badgeString)`; None stands for a missing column. */
  function ParseBadges(badges: Option<string>): seq<string> {
    if badges.None? || badges.value == [] || Trim(badges.value) == [] then []
    else NonEmpty(TrimAll(Split(badges.value, '|')))
  }

  lemma {:induction false} NonEmptyMembers(pieces: seq<string>)
    ensures forall x :: x in NonEmpty(pieces) <==> x in pieces && x != []
  {
    if pieces != [] {
      NonEmptyMembers(pieces[1..]);
      assert pieces == [pieces[0]] + pieces[1..];
    }
  }

  lemma {:induction false} NonEmptyKeeps(pieces: seq<string>)
    requires forall i :: 0 <= i < |pieces| ==> pieces[i] != []
    ensures NonEmpty(pieces) == pieces
  {
    if pieces != [] {
      NonEmptyKeeps(pieces[1..]);
      assert pieces == [pieces[0]] + pieces[1..];
    }
  }

  /** Entry k of r is the non-empty piece at position idx[k]. */
  predicate Picks(r: seq<string>, pieces: seq<string>, idx: seq<int>) {
    |idx| == |r| && forall k :: 0 <= k < |idx| ==> 0 <= idx[k] < |pieces| && r[k] == pieces[idx[k]] && r[k] != []
  }

  /** Each position is greater than the one before it. */
  predicate Increasing(idx: seq<int>) {
    forall k :: 0 < k < |idx| ==> idx[k - 1] < idx[k]
  }

  /** Every non-empty piece is picked. */
  predicate Covers(pieces: seq<string>, idx: seq<int>) {
    forall j :: 0 <= j < |pieces| && pieces[j] != [] ==> exists k :: 0 <= k < |idx| && idx[k] == j
  }

  /** r lists, in their order and with their repeats, exactly the non-empty
      entries of pieces: idx maps each entry of r to its position in pieces,
      positions increase, and every non-empty piece has one. */
  predicate IsNonEmptySelection(r: seq<string>, pieces: seq<string>, idx: seq<int>) {
    Picks(r, pieces, idx) && Increasing(idx) && Covers(pieces, idx)
  }

  function Shift(idx: seq<int>): (r: seq<int>)
    ensures |r| == |idx| && forall k :: 0 <= k < |idx| ==> r[k] == idx[k] + 1
  {
    seq(|idx|, k requires 0 <= k < |idx| => idx[k] + 1)
  }

  function HeadIndex(p: string): seq<int> {
    if p != [] then [0] else []
  }

  function HeadPiece(p: string): seq<string> {
    if p != [] then [p] else []
  }

  lemma {:induction false} PicksCons(p: string, tail: seq<string>, r: seq<string>, t: seq<int>)
    requires Picks(r, tail, t)
    ensures Picks(HeadPiece(p) + r, [p] + tail, HeadIndex(p) + Shift(t))
  {
    var h := |HeadIndex(p)|;
    var idx := HeadIndex(p) + Shift(t);
    var r' := HeadPiece(p) + r;
    var pieces := [p] + tail;
    forall k | 0 <= k < |idx|
      ensures 0 <= idx[k] < |pieces| && r'[k] == pieces[idx[k]] && r'[k] != []
    {
      if k >= h {
        assert idx[k] == t[k - h] + 1;
        assert r'[k] == r[k - h];
        assert pieces[t[k - h] + 1] == tail[t[k - h]];
      }
    }
  }

  lemma {:induction false} IncreasingCons(p: string, t: seq<int>)
    requires Increasing(t) && forall k :: 0 <= k < |t| ==> t[k] >= 0
    ensures Increasing(HeadIndex(p) + Shift(t))
  {
    var h := |HeadIndex(p)|;
    var idx := HeadIndex(p) + Shift(t);
    forall k | 0 < k < |idx| ensures idx[k - 1] < idx[k] {
      assert idx[k] == t[k - h] + 1;
      if k - 1 >= h {
        assert idx[k - 1] == t[k - 1 - h] + 1;
      }
    }
  }

  lemma {:induction false} CoversCons(p: string, tail: seq<string>, t: seq<int>)
    requires Covers(tail, t)
    ensures Covers([p] + tail, HeadIndex(p) + Shift(t))
  {
    var h := |HeadIndex(p)|;
    var idx := HeadIndex(p) + Shift(t);
    var pieces := [p] + tail;
    forall j | 0 <= j < |pieces| && pieces[j] != []
      ensures exists k :: 0 <= k < |idx| && idx[k] == j
    {
      if j == 0 {
        assert idx[0] == 0;
      } else {
        assert pieces[j] == tail[j - 1];
        var k :| 0 <= k < |t| && t[k] == j - 1;
        assert idx[h + k] == j;
      }
    }
  }

  /** The filter keeps the non-empty pieces in order: idx says where each
      kept piece came from. */
  lemma {:induction false} NonEmptySelects(pieces: seq<string>) returns (idx: seq<int>)
    ensures IsNonEmptySelection(NonEmpty(pieces), pieces, idx)
  {
    if pieces == [] {
      idx := [];
    } else {
      var p, tail := pieces[0], pieces[1..];
      var t := NonEmptySelects(tail);
      PicksCons(p, tail, NonEmpty(tail), t);
      IncreasingCons(p, t);
      CoversCons(p, tail, t);
      assert [p] + tail == pieces;
      assert NonEmpty(pieces) == HeadPiece(p) + NonEmpty(tail);
      idx := HeadIndex(p) + Shift(t);
    }
  }

  /** What a badge looks like: not empty, no `|`, and no white space at
      either end. */
  predicate IsCleanBadge(b: string) {
    b != [] && '|' !in b && !IsJsSpace(b[0]) && !IsJsSpace(b[|b| - 1])
  }

  /** The non-empty trim of a piece without `|` is a clean badge. */
  lemma {:induction false} TrimmedPiece(piece: string)
    requires '|' !in piece && Trim(piece) != []
    ensures IsCleanBadge(Trim(piece))
  {
    TrimShape(piece);
  }

  /** A missing, empty or all-blank column gives no badges. */
  lemma {:induction false} BlankBadges(badges: Option<string>)
    requires badges.None? || IsBlank(badges.value)
    ensures ParseBadges(badges) == []
  {
    if badges.Some? {
      TrimEmptyIffBlank(badges.value);
    }
  }

  /** Every badge is non-empty, holds no `|` and has no white space at
      either end; there is at most one more badge than separators. */
  lemma {:induction false} BadgeShape(s: string)
    ensures var r := ParseBadges(Some(s));
      && |r| <= multiset(s)['|'] + 1
      && (forall k :: 0 <= k < |r| ==> IsCleanBadge(r[k]))
  {
    var r := ParseBadges(Some(s));
    if s != [] && Trim(s) != [] {
      var pieces := Split(s, '|');
      SplitCount(s, '|');
      var idx := NonEmptySelects(TrimAll(pieces));
      forall k | 0 <= k < |r|
        ensures IsCleanBadge(r[k])
      {
        var j := idx[k];
        assert r[k] == Trim(pieces[j]);
        TrimmedPiece(pieces[j]);
      }
    }
  }

  /** The badges are the trimmed `|`-separated pieces of the column that
      are not empty. */
  lemma {:induction false} BadgeMembers(s: string, b: string)
    requires !IsBlank(s)
    ensures b in ParseBadges(Some(s)) <==>
      b != [] && exists j :: 0 <= j < |Split(s, '|')| && b == Trim(Split(s, '|')[j])
    ensures exists idx :: IsNonEmptySelection(ParseBadges(Some(s)), TrimAll(Split(s, '|')), idx)
  {
    var pieces := Split(s, '|');
    NonBlankBadges(s);
    var idx := NonEmptySelects(TrimAll(pieces));
    NonEmptyMembers(TrimAll(pieces));
    TrimAllMembers(pieces, b);
  }

  lemma {:induction false} NonBlankBadges(s: string)
    requires !IsBlank(s)
    ensures ParseBadges(Some(s)) == NonEmpty(TrimAll(Split(s, '|')))
  {
    TrimEmptyIffBlank(s);
  }

  lemma {:induction false} TrimAllMembers(pieces: seq<string>, b: string)
    ensures b in TrimAll(pieces) <==> exists j :: 0 <= j < |pieces| && b == Trim(pieces[j])
  {
    if exists j :: 0 <= j < |pieces| && b == Trim(pieces[j]) {
      var j :| 0 <= j < |pieces| && b == Trim(pieces[j]);
      assert TrimAll(pieces)[j] == b;
    }
  }

  lemma {:induction false} JoinStartsWithFirst(parts: seq<string>, sep: char)
    requires |parts| >= 1
    ensures StartsWith(Join(parts, sep), parts[0])
  {
    if |parts| > 1 {
      var j := Join(parts, sep);
      assert j == parts[0] + ([sep] + Join(parts[1..], sep));
      assert j[..|parts[0]|] == parts[0];
    }
  }

  /** Joining badge names with `|` and parsing the result gives the names
      back, so the column's order is the order shown. */
  lemma {:induction false} BadgesRoundTrip(parts: seq<string>)
    requires |parts| >= 1
    requires forall i :: 0 <= i < |parts| ==> IsCleanBadge(parts[i])
    ensures ParseBadges(Some(Join(parts, '|'))) == parts
  {
    var s := Join(parts, '|');
    JoinStartsWithFirst(parts, '|');
    assert s[0] == parts[0][0];
    TrimEmptyIffBlank(s);
    SplitJoin(parts, '|');
    forall i | 0 <= i < |parts| ensures Trim(parts[i]) == parts[i] {
      TrimOfTrimmed(parts[i]);
    }
    assert TrimAll(parts) == parts;
    NonEmptyKeeps(parts);
  }

  // ---------------------------------------------------------------------
  // looking up the participant

  datatype PageError = NoEmailProvided | ParticipantNotFound | Malformed

  /** The message the page shows for each error. */
  function ErrorMessage(e: PageError): string {
    match e
    case NoEmailProvided => "No participant email provided"
    case ParticipantNotFound => "Participant not found"
    case Malformed => "URI malformed"
  }

  predicate HasEmail(r: Record, email: string) {
    Get(r, UserEmailKey) == Some(Str(email))
  }

  /** `data.find(p => p['User Email'] === email)`. */
  function FindByEmail(data: seq<Record>, email: string): (r: Option<Record>)
    ensures r.None? <==> forall i :: 0 <= i < |data| ==> !HasEmail(data[i], email)
    ensures r.Some? ==> HasEmail(r.value, email)
    ensures r.Some? ==> exists i :: (0 <= i < |data| && data[i] == r.value &&
      (forall j :: 0 <= j < i ==> !HasEmail(data[j], email)))
  {
    if data == [] then None
    else if HasEmail(data[0], email) then Some(data[0])
    else
      var r := FindByEmail(data[1..], email);
      assert r.Some? ==> exists i :: (0 <= i < |data| && data[i] == r.value &&
        (forall j :: 0 <= j < i ==> !HasEmail(data[j], email))) by {
        if r.Some? {
          var i :| 0 <= i < |data| - 1 && data[1..][i] == r.value &&
            (forall j :: 0 <= j < i ==> !HasEmail(data[1..][j], email));
          assert forall j :: 1 <= j < i + 1 ==> data[j] == data[1..][j - 1];
        }
      }
      r
  }

  function Found(r: Option<Record>): Result<Record, PageError> {
    match r
    case None => Failure(ParticipantNotFound)
    case Some(p) => Success(p)
  }

  /** The page as written: `email` is the parameter `useSearchParams()`
      returns, already decoded, and the search callback decodes it once
      more for every record it tests, so a malformed escape fails the
      lookup unless the list is empty. */
  function LoadAsWritten(email: Option<string>, data: seq<Record>): (r: Result<Record, PageError>)
    ensures r == Failure(NoEmailProvided) <==> email.None? || email.value == []
    ensures r == Failure(Malformed) <==>
      email.Some? && email.value != [] && data != [] && DecodeURIComponent(email.value).Failure?
    ensures r.Success? ==>
      && r.value in data && DecodeURIComponent(email.value).Success?
      && HasEmail(r.value, DecodeURIComponent(email.value).value)
    ensures email.Some? && email.value != [] && data == [] ==> r == Failure(ParticipantNotFound)
    ensures email.Some? && email.value != [] && data != [] && DecodeURIComponent(email.value).Success? ==>
      var e := DecodeURIComponent(email.value).value;
      && (r.Success? || r == Failure(ParticipantNotFound))
      && (r == Failure(ParticipantNotFound) <==> forall i :: 0 <= i < |data| ==> !HasEmail(data[i], e))
      && (r.Success? ==> exists i :: (0 <= i < |data| && data[i] == r.value &&
            (forall j :: 0 <= j < i ==> !HasEmail(data[j], e))))
  {
    if email.None? || email.value == [] then Failure(NoEmailProvided)
    else if data == [] then Failure(ParticipantNotFound)
    else match DecodeURIComponent(email.value)
      case Failure(_) => Failure(Malformed)
      case Success(e) => Found(FindByEmail(data, e))
  }

  /** The lookup the page means: the parameter is the email. */
  function LoadParticipant(email: Option<string>, data: seq<Record>): (r: Result<Record, PageError>)
    ensures r == Failure(NoEmailProvided) <==> email.None? || email.value == []
    ensures r.Success? ==> r.value in data && HasEmail(r.value, email.value)
    ensures r.Failure? ==> r.error != Malformed
  {
    if email.None? || email.value == [] then Failure(NoEmailProvided)
    else Found(FindByEmail(data, email.value))
  }

  /** The value of `email` in a link the table builds: the query text
      after the path, percent-decoded. */
  function LinkedEmail(href: string): Option<string> {
    if !StartsWith(href, DetailsPath) then None
    else match DecodeURIComponent(href[|DetailsPath|..])
      case Success(v) => Some(v)
      case Failure(_) => None
  }

  // ---------------------------------------------------------------------

  /** Without an email the page looks nothing up, in both versions. */
  lemma {:induction false} NoEmail(email: Option<string>, data: seq<Record>)
    requires email.None? || email.value == []
    ensures LoadAsWritten(email, data) == Failure(NoEmailProvided)
    ensures LoadParticipant(email, data) == Failure(NoEmailProvided)
  {
  }

  /** The lookup yields the first record with the email, or "Participant
      not found" when there is none. */
  lemma {:induction false} LookupResult(email: string, data: seq<Record>)
    requires email != []
    ensures var r := LoadParticipant(Some(email), data);
      && (r == Failure(ParticipantNotFound) <==> forall i :: 0 <= i < |data| ==> !HasEmail(data[i], email))
      && (r.Success? ==> exists i :: (0 <= i < |data| && data[i] == r.value && HasEmail(data[i], email) &&
            (forall j :: 0 <= j < i ==> !HasEmail(data[j], email))))
      && (r.Success? || r == Failure(ParticipantNotFound))
  {
  }

  /** The link in a participant's row carries their email to the page. */
  lemma {:induction false} LinkCarriesEmail(p: Participant, email: string)
    requires Get(p.fields, UserEmailKey) == Some(Str(email))
    ensures LinkedEmail(ActionHref(p)) == Some(email)
  {
    ActionLink(p);
  }

  /** Following a participant's link finds a record with their email: the
      participant's own, unless an earlier record shares the email. */
  lemma {:induction false} LinkFindsParticipant(p: Participant, email: string, data: seq<Record>)
    requires Get(p.fields, UserEmailKey) == Some(Str(email)) && email != []
    requires p.fields in data
    ensures var r := LoadParticipant(LinkedEmail(ActionHref(p)), data);
      r.Success? && HasEmail(r.value, email)
  {
    LinkCarriesEmail(p, email);
  }

  /** For an email without %, the page as written behaves as intended. */
  lemma {:induction false} AsWrittenWithoutPercent(email: string, data: seq<Record>)
    requires '%' !in email
    ensures LoadAsWritten(Some(email), data) == LoadParticipant(Some(email), data)
  {
    DecodeWithoutPercent(email);
  }

  const PercentEmail := "a%41@b.c"

  /** The page's second decoding turns the escape `%41` into `A`. */
  lemma DecodePercentEmail()
    ensures DecodeURIComponent(PercentEmail) == Success("aA@b.c")
  {
    var tail := "@b.c";
    var esc := ['%', HexDigit(4), HexDigit(1)];
    assert PercentEmail == "a" + (esc + tail);
    DecodeWithoutPercent(tail);
    DecodeAsciiEscape(4, 1, tail);
    assert (16 * 4 + 1) as char == 'A';
    assert ['A'] + tail == "A@b.c";
    DecodePlainPrefix("a", esc + tail);
    assert "a" + "A@b.c" == "aA@b.c";
  }

  /** A participant whose email holds `%41` is not found by the page as
      written, though the intended lookup finds them. */
  lemma {:induction false} AsWrittenMissesPercentEmail(p: Participant)
    requires Get(p.fields, UserEmailKey) == Some(Str(PercentEmail))
    ensures LinkedEmail(ActionHref(p)) == Some(PercentEmail)
    ensures LoadAsWritten(Some(PercentEmail), [p.fields]) == Failure(ParticipantNotFound)
    ensures ErrorMessage(LoadAsWritten(Some(PercentEmail), [p.fields]).error) == "Participant not found"
    ensures LoadParticipant(Some(PercentEmail), [p.fields]) == Success(p.fields)
  {
    LinkCarriesEmail(p, PercentEmail);
    PercentLookups(p.fields);
  }

  /** Both lookups of a one-record list whose email holds an escape. */
  lemma {:induction false} PercentLookups(f: Record)
    requires Get(f, UserEmailKey) == Some(Str(PercentEmail))
    ensures LoadAsWritten(Some(PercentEmail), [f]) == Failure(ParticipantNotFound)
    ensures ErrorMessage(LoadAsWritten(Some(PercentEmail), [f]).error) == "Participant not found"
    ensures LoadParticipant(Some(PercentEmail), [f]) == Success(f)
  {
    DecodePercentEmail();
    assert !HasEmail(f, "aA@b.c");
  }

  const BarePercentEmail := "100%@x.io"

  /** The `%@` in the address is not an escape. */
  lemma DecodeBarePercentEmail()
    ensures DecodeURIComponent(BarePercentEmail).Failure?
  {
    var tail := "%@x.io";
    assert BarePercentEmail == "100" + tail;
    assert tail[0] == '%' && tail[1] == '@' && HexValue('@').None?;
    DecodeBadEscape(tail);
    DecodePlainPrefix("100", tail);
  }

  /** Both lookups of a one-record list whose email holds a bare %. */
  lemma {:induction false} BarePercentLookups(f: Record)
    requires Get(f, UserEmailKey) == Some(Str(BarePercentEmail))
    ensures LoadAsWritten(Some(BarePercentEmail), [f]) == Failure(Malformed)
    ensures ErrorMessage(LoadAsWritten(Some(BarePercentEmail), [f]).error) == "URI malformed"
    ensures LoadParticipant(Some(BarePercentEmail), [f]) == Success(f)
  {
    DecodeBarePercentEmail();
  }

  /** A participant whose email holds a bare % gets "URI malformed". */
  lemma {:induction false} AsWrittenRejectsBarePercent(p: Participant)
    requires Get(p.fields, UserEmailKey) == Some(Str(BarePercentEmail))
    ensures LinkedEmail(ActionHref(p)) == Some(BarePercentEmail)
    ensures LoadAsWritten(Some(BarePercentEmail), [p.fields]) == Failure(Malformed)
    ensures ErrorMessage(LoadAsWritten(Some(BarePercentEmail), [p.fields]).error) == "URI malformed"
    ensures LoadParticipant(Some(BarePercentEmail), [p.fields]) == Success(p.fields)
  {
    LinkCarriesEmail(p, BarePercentEmail);
    BarePercentLookups(p.fields);
  }
}
