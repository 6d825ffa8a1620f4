/**
 * The table's column configuration: which record fields the leaderboard
 * shows, in which order, where, and what each custom renderer displays for a
 * value. Only the meaning of a rendered cell is kept (its text, its label
 * and whether it is styled as positive), not its markup.
 */
module TableConfig {
  import opened Wrappers
  import opened Text
  import opened Records

  /** The custom renderers of the configuration. */
  datatype Renderer = NameWithBadge | RedemptionPill | ProfileStatusPill | CompletionPill | ProfileLink

  datatype Column = Column(
    key: string,
    heading: string,
    visible: bool,
    mobileVisible: bool,
    isIndex: bool,
    isAction: bool,
    render: Option<Renderer>)

  /** What a cell shows: plain text, a pill with a label styled as positive
      or negative, a link to an external page, or the link to the
      participant's detail page. */
  datatype Cell =
    | PlainText(text: string)
    | Pill(caption: string, positive: bool)
    | ExternalLink(href: string, caption: string)
    | DetailsLink(href: string)

  /** The keys of the two synthetic columns, which no record field has. */
  const IndexKey := "_index"
  const ActionKey := "_action"

  /** `ELIGIBILITY_CONFIG`: a participant is eligible for swags when this
      field holds exactly this value. */
  const EligibilityField := AllCompletedKey
  const EligibleValue := "Yes"

  const ColumnConfig: seq<Column> := [
    Column(IndexKey, "#", true, true, true, false, None),
    Column(UserNameKey, "Name", true, true, false, false, Some(NameWithBadge)),
    Column(UserEmailKey, "Email", false, false, false, false, None),
    Column(RedemptionKey, "Redemption Status", true, false, false, false, Some(RedemptionPill)),
    Column(ProfileStatusKey, "Institution", false, false, false, false, Some(ProfileStatusPill)),
    Column(AllCompletedKey, "All Completed", true, false, false, false, Some(CompletionPill)),
    Column(SkillBadgesKey, "Number of Skill Badges Completed", true, false, false, false, None),
    Column(ArcadeGamesKey, "Number of Arcade Games Completed", true, false, false, false, None),
    Column(SkillNamesKey, "Completed Badges", false, false, false, false, None),
    Column(ArcadeNamesKey, "Completed Games", false, false, false, false, None),
    Column(ProfileUrlKey, "Profile URL", false, false, false, false, Some(ProfileLink)),
    Column(ActionKey, "Actions", true, true, false, true, None)
  ]

  // ---------------------------------------------------------------------
  // selecting columns

  /** `cols.filter(col => col.visible)`. */
  function VisibleOf(cols: seq<Column>): seq<Column> {
    if cols == [] then []
    else (if cols[0].visible then [cols[0]] else []) + VisibleOf(cols[1..])
  }

  /** `cols.filter(col => col.visible && col.mobileVisible)`. */
  function MobileVisibleOf(cols: seq<Column>): seq<Column> {
    if cols == [] then []
    else (if cols[0].visible && cols[0].mobileVisible then [cols[0]] else []) + MobileVisibleOf(cols[1..])
  }

  /** The visible columns are exactly the configured columns marked
      visible, and the mobile ones those also marked for mobile. */
  lemma {:induction false} FilterMembers(cols: seq<Column>)
    ensures forall c :: c in VisibleOf(cols) <==> c in cols && c.visible
    ensures forall c :: c in MobileVisibleOf(cols) <==> c in cols && c.visible && c.mobileVisible
  {
    if cols != [] {
      FilterMembers(cols[1..]);
      assert cols == [cols[0]] + cols[1..];
    }
  }

  function GetVisibleColumns(): seq<Column> {
    VisibleOf(ColumnConfig)
  }

  function GetMobileVisibleColumns(): seq<Column> {
    MobileVisibleOf(ColumnConfig)
  }

  function Keys(cols: seq<Column>): seq<string> {
    seq(|cols|, i requires 0 <= i < |cols| => cols[i].key)
  }

  /** The mobile columns are the visible columns, filtered further: a
      subsequence of them in the same order. */
  lemma {:induction false} MobileOfVisible(cols: seq<Column>)
    ensures MobileVisibleOf(cols) == MobileVisibleOf(VisibleOf(cols))
  {
    if cols != [] {
      MobileOfVisible(cols[1..]);
      var head := if cols[0].visible then [cols[0]] else [];
      assert VisibleOf(cols) == head + VisibleOf(cols[1..]);
      MobileVisibleOfAppend(head, VisibleOf(cols[1..]));
    }
  }

  lemma {:induction false} MobileVisibleOfAppend(a: seq<Column>, b: seq<Column>)
    ensures MobileVisibleOf(a + b) == MobileVisibleOf(a) + MobileVisibleOf(b)
  {
    if a == [] {
      assert a + b == b;
    } else {
      assert (a + b)[0] == a[0];
      assert (a + b)[1..] == a[1..] + b;
      MobileVisibleOfAppend(a[1..], b);
    }
  }

  /** VisibleOf(cols[k..]) and MobileVisibleOf(cols[k..]), by position. */
  function VisibleFrom(cols: seq<Column>, k: nat): seq<Column>
    decreases |cols| - k
  {
    if k >= |cols| then [] else (if cols[k].visible then [cols[k]] else []) + VisibleFrom(cols, k + 1)
  }

  function MobileVisibleFrom(cols: seq<Column>, k: nat): seq<Column>
    decreases |cols| - k
  {
    if k >= |cols| then []
    else (if cols[k].visible && cols[k].mobileVisible then [cols[k]] else []) + MobileVisibleFrom(cols, k + 1)
  }

  lemma {:induction false} VisibleFromSuffix(cols: seq<Column>, k: nat)
    requires k <= |cols|
    ensures VisibleFrom(cols, k) == VisibleOf(cols[k..])
    ensures MobileVisibleFrom(cols, k) == MobileVisibleOf(cols[k..])
    decreases |cols| - k
  {
    if k < |cols| {
      assert cols[k..][0] == cols[k];
      assert cols[k..][1..] == cols[k + 1..];
      VisibleFromSuffix(cols, k + 1);
    }
  }

  lemma VisibleFromConfig()
    ensures var c := ColumnConfig;
      VisibleFrom(c, 0) == [c[0], c[1], c[3], c[5], c[6], c[7], c[11]]
  {
    var c := ColumnConfig;
    assert VisibleFrom(c, 12) == [];
    assert VisibleFrom(c, 11) == [c[11]];
    assert VisibleFrom(c, 10) == [c[11]];
    assert VisibleFrom(c, 9) == [c[11]];
    assert VisibleFrom(c, 8) == [c[11]];
    assert VisibleFrom(c, 7) == [c[7], c[11]];
    assert VisibleFrom(c, 6) == [c[6], c[7], c[11]];
    assert VisibleFrom(c, 5) == [c[5], c[6], c[7], c[11]];
    assert VisibleFrom(c, 4) == [c[5], c[6], c[7], c[11]];
    assert VisibleFrom(c, 3) == [c[3], c[5], c[6], c[7], c[11]];
    assert VisibleFrom(c, 2) == [c[3], c[5], c[6], c[7], c[11]];
    assert VisibleFrom(c, 1) == [c[1], c[3], c[5], c[6], c[7], c[11]];
  }

  lemma MobileVisibleFromConfig()
    ensures var c := ColumnConfig;
      MobileVisibleFrom(c, 0) == [c[0], c[1], c[11]]
  {
    var c := ColumnConfig;
    assert MobileVisibleFrom(c, 12) == [];
    assert MobileVisibleFrom(c, 11) == [c[11]];
    assert MobileVisibleFrom(c, 10) == [c[11]];
    assert MobileVisibleFrom(c, 9) == [c[11]];
    assert MobileVisibleFrom(c, 8) == [c[11]];
    assert MobileVisibleFrom(c, 7) == [c[11]];
    assert MobileVisibleFrom(c, 6) == [c[11]];
    assert MobileVisibleFrom(c, 5) == [c[11]];
    assert MobileVisibleFrom(c, 4) == [c[11]];
    assert MobileVisibleFrom(c, 3) == [c[11]];
    assert MobileVisibleFrom(c, 2) == [c[11]];
    assert MobileVisibleFrom(c, 1) == [c[1], c[11]];
  }

  lemma VisibleColumns()
    ensures var c := ColumnConfig;
      GetVisibleColumns() == [c[0], c[1], c[3], c[5], c[6], c[7], c[11]]
    ensures var c := ColumnConfig;
      GetMobileVisibleColumns() == [c[0], c[1], c[11]]
  {
    VisibleFromConfig();
    MobileVisibleFromConfig();
    VisibleFromSuffix(ColumnConfig, 0);
    assert ColumnConfig[0..] == ColumnConfig;
  }

  /** The table shows seven columns, three of them on mobile. */
  lemma ShownColumns()
    ensures Keys(GetVisibleColumns()) == [IndexKey, UserNameKey, RedemptionKey,
      AllCompletedKey, SkillBadgesKey, ArcadeGamesKey, ActionKey]
    ensures Keys(GetMobileVisibleColumns()) == [IndexKey, UserNameKey, ActionKey]
  {
    VisibleColumns();
  }

  /** `cols.find(col => col.key === key)`: the first column with that key. */
  function FindColumn(cols: seq<Column>, key: string): (r: Option<Column>)
    ensures r.None? <==> forall i :: 0 <= i < |cols| ==> cols[i].key != key
    ensures r.Some? ==> r.value.key == key
    ensures r.Some? ==> exists i :: 0 <= i < |cols| && cols[i] == r.value && (forall j :: 0 <= j < i ==> cols[j].key != key)
  {
    if cols == [] then None
    else if cols[0].key == key then Some(cols[0])
    else
      var r := FindColumn(cols[1..], key);
      assert forall i :: 1 <= i < |cols| ==> cols[i] == cols[1..][i - 1];
      r
  }

  /** `getColumnConfig(key)`: nothing for a key no column has, otherwise a
      configured column with that key. */
  function GetColumnConfig(key: string): (r: Option<Column>)
    ensures r.None? <==> forall c :: c in ColumnConfig ==> c.key != key
    ensures r.Some? ==> r.value in ColumnConfig && r.value.key == key
  {
    var r := FindColumn(ColumnConfig, key);
    assert forall c :: c in ColumnConfig ==> exists i :: 0 <= i < |ColumnConfig| && ColumnConfig[i] == c;
    r
  }

  /** The email column is configured, and hidden. */
  lemma EmailColumnHidden()
    ensures GetColumnConfig(UserEmailKey) == Some(ColumnConfig[2])
    ensures !ColumnConfig[2].visible && !ColumnConfig[2].mobileVisible
  {
    var c := ColumnConfig;
    assert c[0].key[0] == '_' && UserEmailKey[0] == 'U';
    assert c[1].key[5] == 'N' && UserEmailKey[5] == 'E';
    assert FindColumn(c[2..], UserEmailKey) == Some(c[2]);
    assert FindColumn(c[1..], UserEmailKey) == Some(c[2]);
  }

  // ---------------------------------------------------------------------
  // what the custom renderers show

  /** `🏅` for a participant who completed everything, nothing otherwise. */
  function Badge(row: Record): string {
    if Get(row, AllCompletedKey) == Some(Str("Yes")) then "\U{1F3C5}" else ""
  }

  function Render(r: Renderer, value: Option<Value>, row: Record): Cell {
    match r
    case NameWithBadge => PlainText(JsString(value) + " " + Badge(row))
    case RedemptionPill =>
      var done := value == Some(Str("Yes"));
      Pill(if done then "Done" else "Not Done", done)
    case ProfileStatusPill =>
      var good := value == Some(Str("All Good"));
      Pill(if good then "Valid" else "Check", good)
    case CompletionPill =>
      var complete := value == Some(Str("Yes"));
      Pill(if complete then "Yes" else "No!", complete)
    case ProfileLink =>
      if !Truthy(value) then PlainText("-") else ExternalLink(JsString(value), "View Profile")
  }

  /** Each pill shows its positive label exactly when the value is exactly
      the expected text, and its negative label for anything else, a
      different case or a missing field included. */
  lemma {:induction false} PillLabels(value: Option<Value>, row: Record)
    ensures Render(RedemptionPill, value, row).Pill?
    ensures Render(RedemptionPill, value, row).caption == "Done" <==> value == Some(Str("Yes"))
    ensures Render(RedemptionPill, value, row).caption != "Done" ==> Render(RedemptionPill, value, row) == Pill("Not Done", false)
    ensures Render(ProfileStatusPill, value, row).caption == "Valid" <==> value == Some(Str("All Good"))
    ensures Render(ProfileStatusPill, value, row).caption != "Valid" ==> Render(ProfileStatusPill, value, row) == Pill("Check", false)
    ensures Render(CompletionPill, value, row).caption == "Yes" <==> value == Some(Str("Yes"))
    ensures Render(CompletionPill, value, row).caption != "Yes" ==> Render(CompletionPill, value, row) == Pill("No!", false)
    ensures forall r :: r in {RedemptionPill, ProfileStatusPill, CompletionPill} ==>
      Render(r, value, row).positive == (Render(r, value, row).caption in {"Done", "Valid", "Yes"})
  {
    assert "Not Done" != "Done" && "Check" != "Valid" && "No!" != "Yes";
  }

  /** The name cell is the name, a space, and the medal emoji exactly for a
      participant who completed everything. */
  lemma {:induction false} NameCell(value: Option<Value>, row: Record)
    ensures var t := Render(NameWithBadge, value, row).text;
      && StartsWith(t, JsString(value) + " ")
      && (EndsWith(t, "\U{1F3C5}") <==> Get(row, AllCompletedKey) == Some(Str("Yes")))
  {
    var t := Render(NameWithBadge, value, row).text;
    var prefix := JsString(value) + " ";
    assert t == prefix + Badge(row);
    assert t[..|prefix|] == prefix;
    if Get(row, AllCompletedKey) != Some(Str("Yes")) {
      assert t == prefix;
      assert t[|t| - 1] == ' ';
    }
  }

  /** The profile-URL cell is `-` for an empty or missing URL and a link to
      the URL otherwise. */
  lemma {:induction false} ProfileLinkCell(value: Option<Value>, row: Record)
    ensures value == None || value == Some(Str("")) ==> Render(ProfileLink, value, row) == PlainText("-")
    ensures value.Some? && value.value.Str? && value.value.s != "" ==>
      Render(ProfileLink, value, row) == ExternalLink(value.value.s, "View Profile")
  {
  }
}
