/**
 * Reading one column of the interrupt-vector table across a page range
 * (`extract_column_from_pdf`). The document reader is abstracted away: a
 * document is the sequence of its pages, each holding the table detected on
 * it, or `None` when no table was found. A table is a sequence of rows, a
 * row a sequence of cells, a cell an optional string.
 */
module Extractor {
  import opened Common
  import opened Sanitizer

  type Cell = Option<string>
  type Row = seq<Cell>
  type Table = seq<Row>

  /** The text kept for one cell: an empty cell becomes "", any other cell
      is stripped; either way the result has no surrounding whitespace. */
  function CellText(cell: Cell): (text: string)
    ensures Strip(text) == text
    ensures cell.Some? ==> |text| <= |cell.value|
  {
    match cell
    case None => ""
    case Some(s) => StripFixesTrimmed(s); Strip(s)
  }

  /** What one row contributes: its cell in `column`, or nothing when the
      row is too short to have that column. */
  function RowEntries(row: Row, column: nat): seq<string> {
    if row != [] && |row| > column then [CellText(row[column])] else []
  }

  /** The contributions of `rows`, in row order. */
  function RowsEntries(rows: seq<Row>, column: nat): seq<string> {
    if rows == [] then []
    else RowsEntries(rows[..|rows| - 1], column) + RowEntries(rows[|rows| - 1], column)
  }

  /** What one page contributes: nothing without a table or with an empty
      one; otherwise every row after the header row. */
  function TableEntries(table: Option<Table>, column: nat): seq<string> {
    match table
    case None => []
    case Some(rows) => if rows == [] then [] else RowsEntries(rows[1..], column)
  }

  /** The contributions of the pages `lo .. hi - 1`, page after page. */
  function PagesEntries(pages: seq<Option<Table>>, column: nat, lo: nat, hi: nat): seq<string>
    requires lo <= hi <= |pages|
    decreases hi
  {
    if hi == lo then [] else PagesEntries(pages, column, lo, hi - 1) + TableEntries(pages[hi - 1], column)
  }

  /** One past the last page scanned: the requested end page (the page
      count when none is given), cut down to the page count. */
  function ScanStop(total: nat, endPage: Option<int>): (stop: int)
    ensures stop <= total
    ensures endPage.Some? ==> stop <= endPage.value
    ensures stop == total || (endPage.Some? && stop == endPage.value)
  {
    var stop := match endPage case None => total case Some(e) => e;
    if stop < total then stop else total
  }

  /** The column as the extraction returns it, for pages `startPage` up to
      `ScanStop`. */
  function ColumnEntries(pages: seq<Option<Table>>, column: nat, startPage: nat, endPage: Option<int>): seq<string> {
    var stop := ScanStop(|pages|, endPage);
    if startPage < stop then PagesEntries(pages, column, startPage, stop) else []
  }

  /** The inner loop of `extract_column_from_pdf`: walks the rows of one
      page's table after the header row and collects the column's cells. */
  method ReadTable(table: Option<Table>, column: nat) returns (found: seq<string>)
    ensures found == TableEntries(table, column)
  {
    found := [];
    if table.Some? && table.value != [] {
      var body := table.value[1..];  // the rows after the header row
      var r := 0;
      assert body[..r] == [];
      while r < |body|
        invariant 0 <= r <= |body|
        invariant found == RowsEntries(body[..r], column)
      {
        var row := body[r];
        assert body[..r + 1][..r] == body[..r];
        if row != [] && |row| > column {
          var entry := row[column];
          if entry.Some? {
            found := found + [Strip(entry.value)];
          } else {
            found := found + [""];
          }
        }
        r := r + 1;
      }
      assert body[..r] == body;
    }
  }

  /** `extract_column_from_pdf`: the page loop, appending each page's
      entries in turn. */
  method ExtractColumn(pages: seq<Option<Table>>, column: nat, startPage: nat, endPage: Option<int>)
    returns (entries: seq<string>)
    ensures entries == ColumnEntries(pages, column, startPage, endPage)
  {
    entries := [];
    var total := |pages|;
    var stop := if endPage.Some? then endPage.value else total;
    if total < stop {
      stop := total;
    }
    if startPage < stop {
      var p := startPage;
      while p < stop
        invariant startPage <= p <= stop
        invariant entries == PagesEntries(pages, column, startPage, p)
      {
        var found := ReadTable(pages[p], column);
        entries := entries + found;
        p := p + 1;
        assert entries == PagesEntries(pages, column, startPage, p - 1) + TableEntries(pages[p - 1], column);
      }
      assert stop == ScanStop(|pages|, endPage);
    } else {
      assert stop == ScanStop(|pages|, endPage);
    }
  }

  /** Splitting the page range splits the entries: everything from the
      earlier pages comes before everything from the later ones. */
  lemma {:induction false} PagesEntriesSplit(pages: seq<Option<Table>>, column: nat, lo: nat, mid: nat, hi: nat)
    requires lo <= mid <= hi <= |pages|
    ensures PagesEntries(pages, column, lo, hi)
         == PagesEntries(pages, column, lo, mid) + PagesEntries(pages, column, mid, hi)
    decreases hi
  {
    if hi > mid {
      PagesEntriesSplit(pages, column, lo, mid, hi - 1);
    }
  }

  lemma {:induction false} RowsEntriesStripped(rows: seq<Row>, column: nat)
    ensures forall e :: e in RowsEntries(rows, column) ==> Strip(e) == e
  {
    if rows != [] {
      RowsEntriesStripped(rows[..|rows| - 1], column);
    }
  }

  lemma {:induction false} PagesEntriesStripped(pages: seq<Option<Table>>, column: nat, lo: nat, hi: nat)
    requires lo <= hi <= |pages|
    ensures forall e :: e in PagesEntries(pages, column, lo, hi) ==> Strip(e) == e
    decreases hi
  {
    if hi > lo {
      PagesEntriesStripped(pages, column, lo, hi - 1);
      TableEntriesStripped(pages[hi - 1], column);
    }
  }

  lemma TableEntriesStripped(table: Option<Table>, column: nat)
    ensures forall e :: e in TableEntries(table, column) ==> Strip(e) == e
  {
    if table.Some? && table.value != [] {
      RowsEntriesStripped(table.value[1..], column);
    }
  }

  /** Every extracted entry is already stripped, so stripping it again (as
      the code generator does) changes nothing. */
  lemma EntriesAreStripped(pages: seq<Option<Table>>, column: nat, startPage: nat, endPage: Option<int>)
    ensures forall e :: e in ColumnEntries(pages, column, startPage, endPage) ==> Strip(e) == e
  {
    var stop := ScanStop(|pages|, endPage);
    if startPage < stop {
      PagesEntriesStripped(pages, column, startPage, stop);
    }
  }

  lemma {:induction false} PagesEntriesFrame(pages: seq<Option<Table>>, pages': seq<Option<Table>>, column: nat, lo: nat, hi: nat)
    requires lo <= hi <= |pages| && hi <= |pages'|
    requires forall p :: lo <= p < hi ==> pages[p] == pages'[p]
    ensures PagesEntries(pages, column, lo, hi) == PagesEntries(pages', column, lo, hi)
    decreases hi
  {
    if hi > lo {
      PagesEntriesFrame(pages, pages', column, lo, hi - 1);
    }
  }

  /** Only the pages of the scanned range are read: two documents with the
      same page count that agree on those pages give the same column. */
  lemma OnlyScannedPagesMatter(pages: seq<Option<Table>>, pages': seq<Option<Table>>, column: nat, startPage: nat, endPage: Option<int>)
    requires |pages| == |pages'|
    requires forall p :: startPage <= p < ScanStop(|pages|, endPage) ==> pages[p] == pages'[p]
    ensures ColumnEntries(pages, column, startPage, endPage) == ColumnEntries(pages', column, startPage, endPage)
  {
    var stop := ScanStop(|pages|, endPage);
    if startPage < stop {
      PagesEntriesFrame(pages, pages', column, startPage, stop);
    }
  }
}
