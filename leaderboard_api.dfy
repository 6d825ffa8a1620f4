/**
 * The leaderboard API's conversion of parsed CSV rows: a column is numeric
 * or text by its name alone, and every numeric column's text becomes
 * `parseInt(text) || 0`.
 */
module LeaderboardApi {
  import opened Text
  import opened JsNumber
  import opened Records

  // ---------------------------------------------------------------------
  // column classification

  datatype Anchor = AtStart | AtEnd | Anywhere

  /** A regular expression made of one literal: `/^text/`, `/text$/` or
      `/text/`, with or without the `i` flag. The texts used here are
      lower-case, so with `i` a name matches when its lower-case form does. */
  datatype Pattern = Pattern(text: string, anchor: Anchor, ignoreCase: bool)

  /** `pattern.test(name)`. */
  predicate Test(p: Pattern, name: string) {
    var subject := if p.ignoreCase then Lower(name) else name;
    match p.anchor
    case AtStart => StartsWith(subject, p.text)
    case AtEnd => EndsWith(subject, p.text)
    case Anywhere => Contains(subject, p.text)
  }

  /** `patterns.some(pattern => pattern.test(name))`. */
  predicate AnyMatches(ps: seq<Pattern>, name: string) {
    ps != [] && (Test(ps[0], name) || AnyMatches(ps[1..], name))
  }

  /** Names that announce a count. */
  const NumericPatterns: seq<Pattern> := [
    Pattern("#", AtStart, false),
    Pattern("total", AtStart, true),
    Pattern("count", AtEnd, true),
    Pattern("number", AtStart, true)
  ]

  /** Names that announce text, whatever else they say. */
  const ExcludePatterns: seq<Pattern> := [
    Pattern("names of", Anywhere, true),
    Pattern("url", Anywhere, true),
    Pattern("email", Anywhere, true),
    Pattern("status", Anywhere, true)
  ]

  /** Whether the column called name holds numbers. */
  predicate IsNumericField(name: string) {
    if AnyMatches(ExcludePatterns, name) then false
    else AnyMatches(NumericPatterns, name)
  }

  /** The name mentions one of the text keywords, in any case. */
  predicate Excluded(name: string) {
    var l := Lower(name);
    Contains(l, "names of") || Contains(l, "url") || Contains(l, "email") || Contains(l, "status")
  }

  /** The name announces a count: `#` first, or total/number first, or
      count last, in any case. */
  predicate Included(name: string) {
    var l := Lower(name);
    StartsWith(name, "#") || StartsWith(l, "total") || EndsWith(l, "count") || StartsWith(l, "number")
  }

  lemma {:induction false} AnyOfFour(ps: seq<Pattern>, name: string)
    requires |ps| == 4
    ensures AnyMatches(ps, name) <==> Test(ps[0], name) || Test(ps[1], name) || Test(ps[2], name) || Test(ps[3], name)
  {
    assert AnyMatches(ps[3..], name) <==> Test(ps[3], name);
    assert AnyMatches(ps[2..], name) <==> Test(ps[2], name) || Test(ps[3], name);
    assert AnyMatches(ps[1..], name) <==> Test(ps[1], name) || Test(ps[2], name) || Test(ps[3], name);
  }

  /** The classification spelled out: numeric exactly when the name is not
      excluded and is included, so exclusion wins and a name matching
      neither list is text. */
  lemma {:induction false} IsNumericFieldIff(name: string)
    ensures IsNumericField(name) <==> !Excluded(name) && Included(name)
  {
    AnyOfFour(ExcludePatterns, name);
    AnyOfFour(NumericPatterns, name);
  }

  /** A name containing a text keyword is text even when it also starts
      with `#` or `total`. */
  lemma {:induction false} ExclusionWins(name: string, keyword: string)
    requires keyword == "names of" || keyword == "url" || keyword == "email" || keyword == "status"
    requires Contains(Lower(name), keyword)
    ensures !IsNumericField(name)
  {
    IsNumericFieldIff(name);
  }

  lemma {:induction false} LowerStartsWithHash(name: string)
    ensures StartsWith(Lower(name), "#") <==> StartsWith(name, "#")
  {
    if |name| >= 1 {
      assert Lower(name)[..1] == [LowerChar(name[0])];
      assert name[..1] == [name[0]];
    }
  }

  /** The classification ignores case: names that agree once lower-cased
      are classified alike. */
  lemma {:induction false} IsNumericFieldIgnoresCase(a: string, b: string)
    requires Lower(a) == Lower(b)
    ensures IsNumericField(a) == IsNumericField(b)
  {
    IsNumericFieldIff(a);
    IsNumericFieldIff(b);
    LowerStartsWithHash(a);
    LowerStartsWithHash(b);
  }

  /** p is missing from the lower-case form of name when one of its
      letters is missing from name in both cases. */
  lemma {:induction false} AbsentLetter(name: string, p: string, k: nat)
    requires k < |p| && 'a' <= p[k] <= 'z'
    requires p[k] !in name && (p[k] as int - 32) as char !in name
    ensures !Contains(Lower(name), p)
  {
    LowerAbsent(name, p[k]);
    MissingCharNotContained(Lower(name), p, k);
  }

  lemma {:induction false} NotExcludedIf(name: string)
    requires !Contains(Lower(name), "names of") && !Contains(Lower(name), "url")
    requires !Contains(Lower(name), "email") && !Contains(Lower(name), "status")
    ensures !Excluded(name)
  {
  }

  /** Without an n or a u, a name cannot mention "names of", "url" or "status". */
  lemma {:induction false} NoNorU(name: string)
    requires 'n' !in name && 'N' !in name && 'u' !in name && 'U' !in name
    ensures !Contains(Lower(name), "names of") && !Contains(Lower(name), "url")
    ensures !Contains(Lower(name), "status")
  {
    AbsentLetter(name, "names of", 0);
    AbsentLetter(name, "url", 0);
    AbsentLetter(name, "status", 4);
  }

  lemma {:induction false} HashNameIsNumeric(name: string)
    requires |name| > 0 && name[0] == '#' && !Excluded(name)
    ensures IsNumericField(name)
  {
    IsNumericFieldIff(name);
    assert name[..1] == "#";
  }

  /** A name matching none of the count patterns is text, whatever
      keywords it holds. */
  lemma {:induction false} NoCountPattern(name: string)
    requires !Included(name)
    ensures !IsNumericField(name)
  {
    IsNumericFieldIff(name);
  }

  /** A name whose first and last characters fit no count pattern matches
      none of them. */
  lemma {:induction false} NoCountByEnds(name: string)
    requires |name| > 0 && name[0] != '#'
    requires LowerChar(name[0]) != 't' && LowerChar(name[0]) != 'n'
    requires LowerChar(name[|name| - 1]) != 't'
    ensures !Included(name)
  {
    assert Lower(name)[0] == LowerChar(name[0]);
    assert Lower(name)[|name| - 1] == LowerChar(name[|name| - 1]);
  }

  /** What the count columns' names lack: no n, no u and, for the arcade
      column, no i; and both start with `#`. */
  lemma SkillKeyHasNoN()
    ensures |SkillBadgesKey| > 0 && SkillBadgesKey[0] == '#'
    ensures 'n' !in SkillBadgesKey && 'N' !in SkillBadgesKey
  {
  }

  lemma SkillKeyHasNoU()
    ensures 'u' !in SkillBadgesKey && 'U' !in SkillBadgesKey
  {
  }

  lemma ArcadeKeyHasNoN()
    ensures |ArcadeGamesKey| > 0 && ArcadeGamesKey[0] == '#'
    ensures 'n' !in ArcadeGamesKey && 'N' !in ArcadeGamesKey
  {
  }

  lemma ArcadeKeyHasNoU()
    ensures 'u' !in ArcadeGamesKey && 'U' !in ArcadeGamesKey
  {
  }

  lemma ArcadeKeyHasNoI()
    ensures 'i' !in ArcadeGamesKey && 'I' !in ArcadeGamesKey
  {
  }

  lemma SkillKeySplit()
    ensures "# of Skill" + " Badges Completed" == SkillBadgesKey
  {
  }

  /** "email" cannot straddle "# of Skill" (no e) and " Badges Completed"
      (no i), and lies in neither. */
  lemma EmailNotInSkillColumn()
    ensures !Contains(Lower(SkillBadgesKey), "email")
  {
    var a, b := "# of Skill", " Badges Completed";
    AbsentLetter(a, "email", 0);
    AbsentLetter(b, "email", 3);
    LowerAppend(a, b);
    assert Lower(b)[0] == ' ';
    NotContainedAcross(Lower(a), Lower(b), "email");
    SkillKeySplit();
  }

  lemma EmailNotInArcadeColumn()
    ensures !Contains(Lower(ArcadeGamesKey), "email")
  {
    ArcadeKeyHasNoI();
    AbsentLetter(ArcadeGamesKey, "email", 3);
  }

  lemma SkillColumnIsNumeric()
    ensures IsNumericField(SkillBadgesKey)
  {
    SkillKeyHasNoN();
    SkillKeyHasNoU();
    NoNorU(SkillBadgesKey);
    EmailNotInSkillColumn();
    NotExcludedIf(SkillBadgesKey);
    HashNameIsNumeric(SkillBadgesKey);
  }

  lemma ArcadeColumnIsNumeric()
    ensures IsNumericField(ArcadeGamesKey)
  {
    ArcadeKeyHasNoN();
    ArcadeKeyHasNoU();
    NoNorU(ArcadeGamesKey);
    EmailNotInArcadeColumn();
    NotExcludedIf(ArcadeGamesKey);
    HashNameIsNumeric(ArcadeGamesKey);
  }

  /** The two count columns of the dataset are numeric. */
  lemma CountColumnsAreNumeric()
    ensures IsNumericField(SkillBadgesKey)
    ensures IsNumericField(ArcadeGamesKey)
  {
    SkillColumnIsNumeric();
    ArcadeColumnIsNumeric();
  }

  /** A name ending in a text keyword is text. */
  lemma {:induction false} SuffixKeyword(a: string, b: string, keyword: string, name: string)
    requires keyword == "names of" || keyword == "url" || keyword == "email" || keyword == "status"
    requires Lower(b) == keyword && name == a + b
    ensures !IsNumericField(name)
  {
    LowerAppend(a, b);
    ContainsSuffix(Lower(a), keyword);
    ExclusionWins(name, keyword);
  }

  /** A name starting with a text keyword is text. */
  lemma {:induction false} PrefixKeyword(a: string, b: string, keyword: string, name: string)
    requires keyword == "names of" || keyword == "url" || keyword == "email" || keyword == "status"
    requires Lower(a) == keyword && name == a + b
    ensures !IsNumericField(name)
  {
    LowerAppend(a, b);
    ContainsPrefix(keyword, Lower(b));
    ExclusionWins(name, keyword);
  }

  lemma UserEmailColumnIsText()
    ensures !IsNumericField(UserEmailKey)
  {
    UserEmailSplit();
    SuffixKeyword("User ", "Email", "email", UserEmailKey);
  }

  lemma UserEmailSplit()
    ensures Lower("Email") == "email" && "User " + "Email" == UserEmailKey
  {
  }

  lemma ProfileStatusColumnIsText()
    ensures !IsNumericField(ProfileStatusKey)
  {
    ProfileStatusSplit();
    SuffixKeyword("Profile URL ", "Status", "status", ProfileStatusKey);
  }

  lemma ProfileStatusSplit()
    ensures Lower("Status") == "status" && "Profile URL " + "Status" == ProfileStatusKey
  {
  }

  lemma RedemptionColumnIsText()
    ensures !IsNumericField(RedemptionKey)
  {
    RedemptionSplit();
    SuffixKeyword("Access Code Redemption ", "Status", "status", RedemptionKey);
  }

  lemma RedemptionSplit()
    ensures Lower("Status") == "status" && "Access Code Redemption " + "Status" == RedemptionKey
  {
  }

  lemma ProfileUrlColumnIsText()
    ensures !IsNumericField(ProfileUrlKey)
  {
    ProfileUrlSplit();
    SuffixKeyword("Google Cloud Skills Boost Profile ", "URL", "url", ProfileUrlKey);
  }

  lemma ProfileUrlSplit()
    ensures Lower("URL") == "url" && "Google Cloud Skills Boost Profile " + "URL" == ProfileUrlKey
  {
  }

  lemma SkillNamesColumnIsText()
    ensures !IsNumericField(SkillNamesKey)
  {
    SkillNamesSplit();
    PrefixKeyword("Names of", " Completed Skill Badges", "names of", SkillNamesKey);
  }

  lemma NamesOfLower()
    ensures Lower("Names of") == "names of"
  {
  }

  lemma SkillNamesSplit()
    ensures Lower("Names of") == "names of" && "Names of" + " Completed Skill Badges" == SkillNamesKey
  {
    NamesOfLower();
  }

  lemma ArcadeNamesColumnIsText()
    ensures !IsNumericField(ArcadeNamesKey)
  {
    ArcadeNamesSplit();
    PrefixKeyword("Names of", " Completed Arcade Games", "names of", ArcadeNamesKey);
  }

  lemma ArcadeNamesSplit()
    ensures Lower("Names of") == "names of" && "Names of" + " Completed Arcade Games" == ArcadeNamesKey
  {
    NamesOfLower();
  }

  lemma UserNameColumnIsText()
    ensures !IsNumericField(UserNameKey)
  {
    NoCountByEnds(UserNameKey);
    NoCountPattern(UserNameKey);
  }

  lemma AllCompletedColumnIsText()
    ensures !IsNumericField(AllCompletedKey)
  {
    NoCountByEnds(AllCompletedKey);
    NoCountPattern(AllCompletedKey);
  }

  /** The name, flag and status columns are text: the ones naming a
      keyword by exclusion, the others because no count pattern fits. */
  lemma TextColumnsAreText()
    ensures !IsNumericField(UserNameKey)
    ensures !IsNumericField(UserEmailKey)
    ensures !IsNumericField(ProfileStatusKey)
    ensures !IsNumericField(RedemptionKey)
    ensures !IsNumericField(AllCompletedKey)
    ensures !IsNumericField(SkillNamesKey)
    ensures !IsNumericField(ArcadeNamesKey)
    ensures !IsNumericField(ProfileUrlKey)
  {
    UserNameColumnIsText();
    AllCompletedColumnIsText();
    UserEmailColumnIsText();
    ProfileStatusColumnIsText();
    RedemptionColumnIsText();
    ProfileUrlColumnIsText();
    SkillNamesColumnIsText();
    ArcadeNamesColumnIsText();
  }

  /** A name whose lower-case form l mentions no text keyword and starts
      with total or number, or ends with count, is numeric. */
  lemma {:induction false} NumericByLowerForm(name: string, l: string)
    requires Lower(name) == l
    requires !Contains(l, "names of") && !Contains(l, "url")
    requires !Contains(l, "email") && !Contains(l, "status")
    requires StartsWith(l, "total") || EndsWith(l, "count") || StartsWith(l, "number")
    ensures IsNumericField(name)
  {
    IsNumericFieldIff(name);
  }

  lemma TotalLower()
    ensures Lower("TOTAL x") == "total x" && Lower("Total x") == "total x"
    ensures StartsWith("total x", "total")
  {
    assert "total x"[..5] == "total";
  }

  lemma TotalNoKeyword()
    ensures !Contains("total x", "names of") && !Contains("total x", "url")
    ensures !Contains("total x", "email") && !Contains("total x", "status")
  {
    MissingCharNotContained("total x", "names of", 0);
    MissingCharNotContained("total x", "url", 0);
    MissingCharNotContained("total x", "email", 0);
    MissingCharNotContained("total x", "status", 4);
  }

  lemma TotalNamesAreNumeric()
    ensures IsNumericField("TOTAL x") && IsNumericField("Total x")
  {
    TotalLower();
    TotalNoKeyword();
    NumericByLowerForm("TOTAL x", "total x");
    NumericByLowerForm("Total x", "total x");
  }

  lemma CountLower()
    ensures Lower("x Count") == "x count" && EndsWith("x count", "count")
  {
    assert "x count"[2..] == "count";
  }

  lemma CountNoKeyword()
    ensures !Contains("x count", "names of") && !Contains("x count", "url")
    ensures !Contains("x count", "email") && !Contains("x count", "status")
  {
    MissingCharNotContained("x count", "names of", 1);
    MissingCharNotContained("x count", "url", 1);
    MissingCharNotContained("x count", "email", 0);
    MissingCharNotContained("x count", "status", 0);
  }

  lemma CountNameIsNumeric()
    ensures IsNumericField("x Count")
  {
    CountLower();
    CountNoKeyword();
    NumericByLowerForm("x Count", "x count");
  }

  lemma NumberLower()
    ensures Lower("NUMBER y") == "number y" && StartsWith("number y", "number")
  {
    assert "number y"[..6] == "number";
  }

  lemma NumberNoKeyword()
    ensures !Contains("number y", "names of") && !Contains("number y", "url")
    ensures !Contains("number y", "email") && !Contains("number y", "status")
  {
    MissingCharNotContained("number y", "names of", 1);
    MissingCharNotContained("number y", "url", 2);
    MissingCharNotContained("number y", "email", 2);
    MissingCharNotContained("number y", "status", 0);
  }

  lemma NumberNameIsNumeric()
    ensures IsNumericField("NUMBER y")
  {
    NumberLower();
    NumberNoKeyword();
    NumericByLowerForm("NUMBER y", "number y");
  }

  /** Inclusion ignores case. */
  lemma InclusionIgnoresCase()
    ensures IsNumericField("TOTAL x") && IsNumericField("Total x")
    ensures IsNumericField("x Count") && IsNumericField("NUMBER y")
  {
    TotalNamesAreNumeric();
    CountNameIsNumeric();
    NumberNameIsNumeric();
  }

  // ---------------------------------------------------------------------
  // row conversion

  /** rec is row converted: the same columns, each numeric one holding
      `parseInt(text) || 0` and each other one its text unchanged. */
  predicate IsNormalizedRow(row: RawRow, rec: Record) {
    && rec.Keys == row.Keys
    && (forall k :: k in row && IsNumericField(k) ==> rec[k] == Num(ParseIntOrZero(row[k])))
    && (forall k :: k in row && !IsNumericField(k) ==> rec[k] == Str(row[k]))
  }

  /** The conversion of one row, writing one column at a time. */
  method NormalizeRow(row: RawRow) returns (rec: Record)
    ensures IsNormalizedRow(row, rec)
  {
    rec := map[];
    var todo := row.Keys;
    while todo != {}
      invariant todo <= row.Keys
      invariant rec.Keys == row.Keys - todo
      invariant forall k :: k in rec && IsNumericField(k) ==> rec[k] == Num(ParseIntOrZero(row[k]))
      invariant forall k :: k in rec && !IsNumericField(k) ==> rec[k] == Str(row[k])
      decreases |todo|
    {
      var key :| key in todo;
      if IsNumericField(key) {
        rec := rec[key := Num(ParseIntOrZero(row[key]))];
      } else {
        rec := rec[key := Str(row[key])];
      }
      todo := todo - {key};
    }
  }

  /** The conversion of all rows: one record per row in row order, and the
      record count the response reports. */
  method NormalizeRows(rows: seq<RawRow>) returns (data: seq<Record>, totalRecords: nat)
    ensures |data| == |rows| && totalRecords == |data|
    ensures forall i :: 0 <= i < |rows| ==> IsNormalizedRow(rows[i], data[i])
  {
    data := [];
    var i := 0;
    while i < |rows|
      invariant 0 <= i <= |rows| && |data| == i
      invariant forall j :: 0 <= j < i ==> IsNormalizedRow(rows[j], data[j])
    {
      var rec := NormalizeRow(rows[i]);
      NormalizedAppend(rows, data, rec);
      data := data + [rec];
      i := i + 1;
    }
    totalRecords := |data|;
  }

  lemma {:induction false} NormalizedAppend(rows: seq<RawRow>, data: seq<Record>, rec: Record)
    requires |data| < |rows| && IsNormalizedRow(rows[|data|], rec)
    requires forall j :: 0 <= j < |data| ==> IsNormalizedRow(rows[j], data[j])
    ensures forall j :: 0 <= j <= |data| ==> IsNormalizedRow(rows[j], (data + [rec])[j])
  {
    forall j | 0 <= j <= |data| ensures IsNormalizedRow(rows[j], (data + [rec])[j]) {
      if j < |data| {
        assert (data + [rec])[j] == data[j];
      } else {
        assert (data + [rec])[j] == rec;
      }
    }
  }

  /** A row has exactly one conversion. */
  lemma {:induction false} NormalizedRowUnique(row: RawRow, a: Record, b: Record)
    requires IsNormalizedRow(row, a) && IsNormalizedRow(row, b)
    ensures a == b
  {
    forall k | k in a ensures a[k] == b[k] {
      if IsNumericField(k) {
      } else {
      }
    }
  }

  /** Conversion never fails: a numeric column whose text has no digits
      (empty, or letters) holds 0, and an empty text column stays empty. */
  lemma {:induction false} NormalizedDefaults(row: RawRow, rec: Record, key: string)
    requires IsNormalizedRow(row, rec) && key in row
    ensures IsNumericField(key) && row[key] == "" ==> rec[key] == Num(0)
    ensures IsNumericField(key) && row[key] == "abc" ==> rec[key] == Num(0)
    ensures !IsNumericField(key) && row[key] == "" ==> rec[key] == Str("")
  {
    ParseIntOfEmptyAndUndefined();
    var abc := "abc";
    assert abc[0] == 'a' && !IsJsSpace(abc[0]);
    assert TrimStart(abc) == abc;
    ParseIntNoDigits(abc);
  }
}
