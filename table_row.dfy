/**
 * One row of the leaderboard table: its tier (the three podium places are
 * styled gold, silver and bronze) and one cell per visible column.
 */
module TableRow {
  import opened Wrappers
  import opened Text
  import opened JsNumber
  import opened Records
  import opened Uri
  import opened Ranking
  import opened TableConfig

  datatype Tier = Gold | Silver | Bronze | Regular

  /** `getRowClasses()`, by the place it styles. */
  function RowTier(rowIndex: int): Tier {
    if rowIndex == 1 then Gold
    else if rowIndex == 2 then Silver
    else if rowIndex == 3 then Bronze
    else Regular
  }

  const Medals: seq<string> := ["\U{1F947}", "\U{1F948}", "\U{1F949}"]

  /** `rowIndex <= 3 ? medals[rowIndex - 1] : ''`, where an index outside
      the array reads `undefined`, which the template prints as such. */
  function Medal(rowIndex: int): string {
    if rowIndex <= 3 then (if 1 <= rowIndex then Medals[rowIndex - 1] else "undefined")
    else ""
  }

  const SearchMark := " \U{1F50D}"

  function SearchIndicator(isFiltered: bool, p: Participant): string {
    if isFiltered && p.isSearchResult then SearchMark else ""
  }

  /** The index cell: the rank, a space, the medal, the search mark. */
  function IndexCellText(rowIndex: int, isFiltered: bool, p: Participant): string {
    IntToString(rowIndex) + " " + Medal(rowIndex) + SearchIndicator(isFiltered, p)
  }

  const DetailsPath := "/participant?email="

  /** `participant["User Email"] || ''`, as text. */
  function EmailText(p: Participant): string {
    var v := Get(p.fields, UserEmailKey);
    if Truthy(v) then JsString(v) else ""
  }

  /** The target of the "View Details" link. */
  function ActionHref(p: Participant): string {
    DetailsPath + EncodeURIComponent(EmailText(p))
  }

  /** `value || '-'`. */
  function DefaultText(v: Option<Value>): string {
    if Truthy(v) then JsString(v) else "-"
  }

  /** `renderCell(col, participant[col.key])`. */
  function RenderCell(col: Column, p: Participant, rowIndex: int, isFiltered: bool): Cell {
    if col.isIndex then PlainText(IndexCellText(rowIndex, isFiltered, p))
    else if col.isAction then DetailsLink(ActionHref(p))
    else if col.render.Some? then Render(col.render.value, Get(p.fields, col.key), p.fields)
    else PlainText(DefaultText(Get(p.fields, col.key)))
  }

  datatype RenderedRow = RenderedRow(tier: Tier, cells: seq<Cell>)

  /** `<DynamicTableRow participant rowIndex isFiltered />`. */
  function RenderRow(p: Participant, rowIndex: int, isFiltered: bool): RenderedRow {
    var cols := GetVisibleColumns();
    RenderedRow(RowTier(rowIndex), seq(|cols|, i requires 0 <= i < |cols| => RenderCell(cols[i], p, rowIndex, isFiltered)))
  }

  // ---------------------------------------------------------------------

  /** Medals and tiers pick the same three places, in the same order. */
  lemma {:induction false} MedalFollowsTier(rowIndex: int)
    requires rowIndex >= 1
    ensures Medal(rowIndex) != "" <==> RowTier(rowIndex) != Regular
    ensures RowTier(rowIndex) == Gold <==> Medal(rowIndex) == "\U{1F947}"
    ensures RowTier(rowIndex) == Silver <==> Medal(rowIndex) == "\U{1F948}"
    ensures RowTier(rowIndex) == Bronze <==> Medal(rowIndex) == "\U{1F949}"
  {
    assert Medals[0] != Medals[1] && Medals[0] != Medals[2] && Medals[1] != Medals[2];
  }

  /** The index cell starts with the rank, which parseInt reads back. */
  lemma {:induction false} IndexCellRank(rowIndex: int, isFiltered: bool, p: Participant)
    ensures StartsWith(IndexCellText(rowIndex, isFiltered, p), IntToString(rowIndex) + " ")
    ensures ParseIntOrZero(IndexCellText(rowIndex, isFiltered, p)) == rowIndex
  {
    var head := IntToString(rowIndex) + " ";
    var tail := Medal(rowIndex) + SearchIndicator(isFiltered, p);
    var rest := " " + tail;
    Assoc(IntToString(rowIndex), " ", tail);
    assert IndexCellText(rowIndex, isFiltered, p) == head + tail;
    assert (head + tail)[..|head|] == head;
    ParseIntOfIntToString(rowIndex, rest);
  }

  lemma {:induction false} EndsWithSuffix(a: string, b: string)
    ensures EndsWith(a + b, b)
  {
    assert (a + b)[|a|..] == b;
  }

  /** The last character of a medal is never the magnifier. */
  lemma {:induction false} MedalEnd(rowIndex: int)
    ensures var m := " " + Medal(rowIndex); m[|m| - 1] != '\U{1F50D}'
  {
  }

  /** The index cell ends with the search mark exactly when the list is
      filtered and the participant is marked as a search result. */
  lemma {:induction false} IndexCellMark(rowIndex: int, isFiltered: bool, p: Participant)
    ensures EndsWith(IndexCellText(rowIndex, isFiltered, p), SearchMark) <==> isFiltered && p.isSearchResult
  {
    var t := IndexCellText(rowIndex, isFiltered, p);
    var m := " " + Medal(rowIndex);
    Assoc(IntToString(rowIndex), " ", Medal(rowIndex));
    if isFiltered && p.isSearchResult {
      assert t == (IntToString(rowIndex) + " " + Medal(rowIndex)) + SearchMark;
      EndsWithSuffix(IntToString(rowIndex) + " " + Medal(rowIndex), SearchMark);
    } else {
      assert t == IntToString(rowIndex) + m;
      MedalEnd(rowIndex);
      assert t[|t| - 1] == m[|m| - 1];
      assert SearchMark[|SearchMark| - 1] == '\U{1F50D}';
    }
  }

  /** The link's query value decodes to the participant's email, or to the
      empty string when there is none, and cannot end the parameter early. */
  lemma {:induction false} ActionLink(p: Participant)
    ensures StartsWith(ActionHref(p), DetailsPath)
    ensures var q := ActionHref(p)[|DetailsPath|..];
      && DecodeURIComponent(q) == Success(EmailText(p))
      && '&' !in q && '#' !in q && '+' !in q
  {
    var q := EncodeURIComponent(EmailText(p));
    assert ActionHref(p)[|DetailsPath|..] == q;
    assert ActionHref(p)[..|DetailsPath|] == DetailsPath;
    DecodeEncode(EmailText(p));
    EncodingAlphabet(EmailText(p));
  }

  /** The default cell shows `-` for a missing field, an empty text and a 0
      count, and otherwise the value, whose number parseInt reads back. */
  lemma {:induction false} DefaultCell(v: Option<Value>)
    ensures v == None || v == Some(Str("")) || v == Some(Num(0)) ==> DefaultText(v) == "-"
    ensures v.Some? && v.value.Str? && v.value.s != "" ==> DefaultText(v) == v.value.s
    ensures v.Some? && v.value.Num? && v.value.n != 0 ==> ParseIntOrZero(DefaultText(v)) == v.value.n
  {
    if v.Some? && v.value.Num? && v.value.n != 0 {
      ParseIntOrZeroOfIntToString(v.value.n);
    }
  }

  lemma {:induction false} IndexCellOf(col: Column, p: Participant, rowIndex: int, isFiltered: bool)
    requires col.isIndex
    ensures RenderCell(col, p, rowIndex, isFiltered) == PlainText(IndexCellText(rowIndex, isFiltered, p))
  {
  }

  /** A row has one cell per visible column, in configuration order: the
      index, the name, the two pills, the two counts and the link. */
  lemma {:induction false} RowCells(p: Participant, rowIndex: int, isFiltered: bool)
    ensures var f := p.fields;
      RenderRow(p, rowIndex, isFiltered).cells == [
        PlainText(IndexCellText(rowIndex, isFiltered, p)),
        Render(NameWithBadge, Get(f, UserNameKey), f),
        Render(RedemptionPill, Get(f, RedemptionKey), f),
        Render(CompletionPill, Get(f, AllCompletedKey), f),
        PlainText(DefaultText(Get(f, SkillBadgesKey))),
        PlainText(DefaultText(Get(f, ArcadeGamesKey))),
        DetailsLink(ActionHref(p))]
  {
    var c := ColumnConfig;
    VisibleColumns();
    var cells := RenderRow(p, rowIndex, isFiltered).cells;
    assert |cells| == 7;
    IndexCellOf(c[0], p, rowIndex, isFiltered);
    assert cells[0] == RenderCell(c[0], p, rowIndex, isFiltered);
  }

  /** The first cell of every row is its index cell. */
  lemma {:induction false} FirstCellIsIndex(p: Participant, rowIndex: int, isFiltered: bool)
    ensures |RenderRow(p, rowIndex, isFiltered).cells| == 7
    ensures RenderRow(p, rowIndex, isFiltered).cells[0] == PlainText(IndexCellText(rowIndex, isFiltered, p))
  {
    RowCells(p, rowIndex, isFiltered);
  }
}
