/** The extraction step of the `/fetch_mainline` route (api/index.py:29-44):
    keep the table rows whose `class` attribute contains "color-green" and
    turn each into a dictionary keyed by the cells' `data-label`s, the "IPO"
    cell being parsed into a company name and a subscription ratio. */
module Mainline {
  import opened Text
  import opened Fields

  const HIGHLIGHT: string := "color-green"
  const IPO_LABEL: string := "IPO"
  const COMPANY_KEY: string := "company_name"
  const RATIO_KEY: string := "subscription_ratio"

  /** A `td` element: its `data-label` attribute and its rendered text. */
  datatype Cell = Cell(dataLabel: string, text: string)

  /** A `tr` element: its `class` attribute and its cells in order. */
  datatype Row = Row(classAttr: string, cells: seq<Cell>)

  /** A row's dictionary; `None` is Python's `None`, produced only by a
      regex that did not match. */
  type RowDict = map<string, Option<string>>

  /** `'color-green' in row.get_attribute('class')` */
  predicate IsHighlighted(row: Row)
  {
    Contains(row.classAttr, HIGHLIGHT)
  }

  /** One step of the inner loop: the dictionary after storing `cell`. */
  function Store(d: RowDict, cell: Cell): RowDict
  {
    if cell.dataLabel == IPO_LABEL then
      d[COMPANY_KEY := CompanyName(cell.text)][RATIO_KEY := SubscriptionRatio(cell.text)]
    else
      d[cell.dataLabel := Some(cell.text)]
  }

  /** The dictionary built from `cells`, stored left to right. */
  function RowOf(cells: seq<Cell>): RowDict
  {
    if cells == [] then map[] else Store(RowOf(cells[..|cells| - 1]), cells[|cells| - 1])
  }

  /** The list of dictionaries the route returns for `rows`. */
  function Extract(rows: seq<Row>): seq<RowDict>
  {
    if rows == [] then []
    else
      var last := rows[|rows| - 1];
      Extract(rows[..|rows| - 1]) + (if IsHighlighted(last) then [RowOf(last.cells)] else [])
  }

  /** Number of highlighted rows in `rows`. */
  function HighlightedCount(rows: seq<Row>): nat
  {
    if rows == [] then 0
    else HighlightedCount(rows[..|rows| - 1]) + (if IsHighlighted(rows[|rows| - 1]) then 1 else 0)
  }

  /** The loop of `retrieve_mainline_data` over already-fetched rows: one
      dictionary per highlighted row, in input order. */
  method RetrieveMainlineData(rows: seq<Row>) returns (results: seq<RowDict>)
    ensures results == Extract(rows)
    ensures |results| == HighlightedCount(rows)
  {
    results := [];
    var n := 0;
    while n < |rows|
      invariant 0 <= n <= |rows|
      invariant results == Extract(rows[..n])
    {
      var row := rows[n];
      assert rows[..n + 1][..n] == rows[..n];
      if Contains(row.classAttr, HIGHLIGHT) {
        var rowDict: RowDict := map[];
        var columns := row.cells;
        var m := 0;
        while m < |columns|
          invariant 0 <= m <= |columns|
          invariant rowDict == RowOf(columns[..m])
        {
          var each := columns[m];
          assert columns[..m + 1][..m] == columns[..m];
          if each.dataLabel == IPO_LABEL {
            rowDict := rowDict[COMPANY_KEY := CompanyName(each.text)];
            rowDict := rowDict[RATIO_KEY := SubscriptionRatio(each.text)];
          } else {
            rowDict := rowDict[each.dataLabel := Some(each.text)];
          }
          m := m + 1;
        }
        assert columns[..m] == columns;
        results := results + [rowDict];
      }
      n := n + 1;
    }
    assert rows[..n] == rows;
    ExtractLength(rows);
  }

  // Properties of the result list

  /** One dictionary per highlighted row. */
  lemma {:induction false} ExtractLength(rows: seq<Row>)
    ensures |Extract(rows)| == HighlightedCount(rows)
  {
    if rows != [] {
      ExtractLength(rows[..|rows| - 1]);
    }
  }

  /** The dictionary of the highlighted row `rows[n]` sits in the result
      right after those of the highlighted rows before it. */
  lemma {:induction false} ExtractAt(rows: seq<Row>, n: int)
    requires 0 <= n < |rows| && IsHighlighted(rows[n])
    ensures HighlightedCount(rows[..n]) < |Extract(rows)|
    ensures Extract(rows)[HighlightedCount(rows[..n])] == RowOf(rows[n].cells)
  {
    var last := |rows| - 1;
    var init := rows[..last];
    ExtractLength(init);
    if n == last {
      assert rows[..n] == init;
    } else {
      assert init[..n] == rows[..n] && init[n] == rows[n];
      ExtractAt(init, n);
    }
  }

  /** Extraction distributes over concatenation, so each row contributes
      on its own and rows that are not highlighted contribute nothing. */
  lemma {:induction false} ExtractAppend(a: seq<Row>, b: seq<Row>)
    ensures Extract(a + b) == Extract(a) + Extract(b)
  {
    if b == [] {
      assert a + b == a;
    } else {
      var last := |b| - 1;
      assert (a + b)[..|a + b| - 1] == a + b[..last];
      ExtractAppend(a, b[..last]);
    }
  }

  /** A single row yields its dictionary when highlighted and nothing
      otherwise. */
  lemma ExtractSingle(row: Row)
    ensures Extract([row]) == if IsHighlighted(row) then [RowOf(row.cells)] else []
  {
  }

  // Properties of a row's dictionary

  /** Storing `cell` writes `key`: the "IPO" cell writes the two parsed
      keys, any other cell writes its own label. */
  predicate Writes(cell: Cell, key: string)
  {
    if cell.dataLabel == IPO_LABEL then key == COMPANY_KEY || key == RATIO_KEY
    else key == cell.dataLabel
  }

  /** The value storing `cell` writes under `key`. */
  function Written(cell: Cell, key: string): Option<string>
    requires Writes(cell, key)
  {
    if cell.dataLabel != IPO_LABEL then Some(cell.text)
    else if key == COMPANY_KEY then CompanyName(cell.text)
    else SubscriptionRatio(cell.text)
  }

  /** A key is in the row's dictionary exactly when some cell writes it. */
  lemma {:induction false} RowKeys(cells: seq<Cell>, key: string)
    ensures key in RowOf(cells) <==> exists j :: 0 <= j < |cells| && Writes(cells[j], key)
  {
    if cells != [] {
      var init := cells[..|cells| - 1];
      RowKeys(init, key);
      assert forall j :: 0 <= j < |init| ==> init[j] == cells[j];
    }
  }

  /** A key holds the value written by the last cell that writes it: a
      later cell with the same label overwrites an earlier one. */
  lemma {:induction false} LastWriterWins(cells: seq<Cell>, j: int, key: string)
    requires 0 <= j < |cells| && Writes(cells[j], key)
    requires forall j' :: j < j' < |cells| ==> !Writes(cells[j'], key)
    ensures key in RowOf(cells) && RowOf(cells)[key] == Written(cells[j], key)
  {
    var last := |cells| - 1;
    if j < last {
      var init := cells[..last];
      assert forall j' :: j < j' < last ==> init[j'] == cells[j'];
      LastWriterWins(init, j, key);
    }
  }

  /** The row has a cell labelled "IPO". */
  predicate HasIpoCell(cells: seq<Cell>)
  {
    exists j :: 0 <= j < |cells| && cells[j].dataLabel == IPO_LABEL
  }

  /** The labels of the row's cells other than "IPO". */
  function OtherLabels(cells: seq<Cell>): set<string>
  {
    set j | 0 <= j < |cells| && cells[j].dataLabel != IPO_LABEL :: cells[j].dataLabel
  }

  /** The dictionary's keys are exactly the labels of the non-"IPO" cells,
      plus "company_name" and "subscription_ratio" when there is an "IPO"
      cell. */
  lemma {:induction false} RowKeySet(cells: seq<Cell>)
    ensures RowOf(cells).Keys ==
      OtherLabels(cells) + (if HasIpoCell(cells) then {COMPANY_KEY, RATIO_KEY} else {})
  {
    forall key ensures key in RowOf(cells) <==>
      key in OtherLabels(cells) || (HasIpoCell(cells) && key in {COMPANY_KEY, RATIO_KEY})
    {
      RowKeys(cells, key);
    }
  }

  /** A row with an "IPO" cell always has both parsed keys, whether or not
      the patterns matched. */
  lemma {:induction false} IpoKeysPresent(cells: seq<Cell>)
    requires HasIpoCell(cells)
    ensures COMPANY_KEY in RowOf(cells) && RATIO_KEY in RowOf(cells)
  {
    RowKeySet(cells);
  }
}
