/**
 * The table body: one row per listed participant, with the rank it shows
 * and whether the list counts as filtered, or a single "No Data Found" row
 * across the table when the list is empty.
 */
module TableBody {
  import opened Wrappers
  import opened Ranking
  import opened TableConfig
  import opened Text
  import opened JsNumber
  import opened TableRow

  /** `participant._actualRank || (index + 1)`. */
  function DisplayRank(p: Participant, index: nat): int {
    if p.actualRank.Some? && p.actualRank.value != 0 then p.actualRank.value else index + 1
  }

  /** `Participationdata.length !== participant._totalParticipants`; an
      absent count is `undefined`, which no length equals. */
  predicate IsFiltered(list: seq<Participant>, p: Participant) {
    p.totalParticipants.None? || |list| != p.totalParticipants.value
  }

  /** The properties handed to one `DynamicTableRow`. */
  datatype RowProps = RowProps(participant: Participant, rowIndex: int, isFiltered: bool)

  datatype Body = Rows(rows: seq<RowProps>) | NoData(colSpan: nat)

  function RenderBody(list: seq<Participant>): Body {
    if |list| > 0 then
      Rows(seq(|list|, i requires 0 <= i < |list| =>
        RowProps(list[i], DisplayRank(list[i], i), IsFiltered(list, list[i]))))
    else NoData(ColSpan())
  }

  /** `getVisibleColumns().length`. */
  function ColSpan(): nat {
    |GetVisibleColumns()|
  }

  /** The rendered rows of a body, as `DynamicTableRow` draws them. */
  function RenderedRows(b: Body): seq<RenderedRow> {
    match b
    case NoData(_) => []
    case Rows(rows) =>
      seq(|rows|, i requires 0 <= i < |rows| =>
        RenderRow(rows[i].participant, rows[i].rowIndex, rows[i].isFiltered))
  }

  /** No participant carries a rank, a total or a search mark of its own. */
  predicate Unannotated(list: seq<Participant>) {
    forall k :: 0 <= k < |list| ==>
      list[k].actualRank.None? && list[k].totalParticipants.None? && !list[k].isSearchResult
  }

  // ---------------------------------------------------------------------

  /** The shown rank is the participant's own rank when that is set and
      not zero, and its place in the list otherwise. */
  lemma {:induction false} DisplayRankCases(p: Participant, index: nat)
    ensures p.actualRank.Some? && p.actualRank.value != 0 ==> DisplayRank(p, index) == p.actualRank.value
    ensures p.actualRank.None? || p.actualRank == Some(0) ==> DisplayRank(p, index) == index + 1
  {
  }

  /** A non-empty list gives exactly one row per participant, in order. */
  lemma {:induction false} OneRowEach(list: seq<Participant>)
    requires list != []
    ensures RenderBody(list).Rows?
    ensures var rows := RenderBody(list).rows;
      && |rows| == |list|
      && (forall i :: 0 <= i < |list| ==> rows[i].participant == list[i])
      && (forall i :: 0 <= i < |list| ==> rows[i].rowIndex == DisplayRank(list[i], i))
      && (forall i :: 0 <= i < |list| ==>
            (rows[i].isFiltered <==> list[i].totalParticipants != Some(|list|)))
  {
  }

  /** An empty list gives the fallback row, spanning all seven columns. */
  lemma {:induction false} EmptyBody(list: seq<Participant>)
    requires list == []
    ensures RenderBody(list) == NoData(7)
    ensures RenderedRows(RenderBody(list)) == []
  {
    VisibleColumns();
  }

  /** Without ranks of their own the rows are numbered 1..n and every one
      is marked filtered. */
  lemma {:induction false} UnannotatedRows(list: seq<Participant>)
    requires list != [] && Unannotated(list)
    ensures var rows := RenderBody(list).rows;
      forall i :: 0 <= i < |list| ==> rows[i].rowIndex == i + 1 && rows[i].isFiltered
  {
  }

  lemma {:induction false} UnannotatedRowOf(list: seq<Participant>, i: nat)
    requires i < |list| && Unannotated(list)
    ensures |RenderedRows(RenderBody(list))| == |list|
    ensures RenderedRows(RenderBody(list))[i] == RenderRow(list[i], i + 1, true)
  {
    UnannotatedRows(list);
  }

  /** Row i of an unannotated list is drawn with tier and medal for place
      i + 1, and its index cell never carries the search mark. */
  lemma {:induction false} UnannotatedRow(list: seq<Participant>, i: nat)
    requires i < |list| && Unannotated(list)
    ensures var rendered := RenderedRows(RenderBody(list));
      && |rendered| == |list|
      && rendered[i].tier == RowTier(i + 1)
      && rendered[i].cells[0] == PlainText(IndexCellText(i + 1, true, list[i]))
      && !EndsWith(IndexCellText(i + 1, true, list[i]), SearchMark)
  {
    UnannotatedRowOf(list, i);
    FirstCellIsIndex(list[i], i + 1, true);
    IndexCellMark(i + 1, true, list[i]);
  }

  /** Each shown rank reads back, through parseInt, as the row number. */
  lemma {:induction false} UnannotatedRankText(list: seq<Participant>, i: nat)
    requires i < |list| && Unannotated(list)
    ensures var cell := RenderedRows(RenderBody(list))[i].cells[0];
      cell.PlainText? && ParseIntOrZero(cell.text) == i + 1
  {
    UnannotatedRow(list, i);
    IndexCellRank(i + 1, true, list[i]);
  }

  /** A ranking carries no annotations, so the table shows it numbered
      1..n; so does every list of participants taken from it. */
  lemma {:induction false} RankingIsUnannotated(data: seq<Records.Record>, r: seq<Participant>, s: seq<Participant>)
    requires IsRanking(data, r)
    requires forall p :: p in s ==> p in r
    ensures Unannotated(r) && Unannotated(s)
  {
    forall k | 0 <= k < |r|
      ensures r[k].actualRank.None? && r[k].totalParticipants.None? && !r[k].isSearchResult
    {
      assert r[k] in multiset(Tag(data));
    }
    forall k | 0 <= k < |s|
      ensures s[k].actualRank.None? && s[k].totalParticipants.None? && !s[k].isSearchResult
    {
      assert s[k] in s;
      var j :| 0 <= j < |r| && r[j] == s[k];
    }
  }
}
