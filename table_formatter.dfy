/**
 * The box-drawn results table: one column per distinct TLD, one row per
 * distinct keyword, both sorted, and a tick or a cross in each cell.
 */
module TableFormatter {
  import opened Wrappers
  import opened Text
  import opened Types

  const NoResults := "No results to display."
  const Tick := "✓"
  const Cross := "✗"

  // ---------------------------------------------------------------------------
  // `[...new Set(xs)].sort()`
  // ---------------------------------------------------------------------------

  /** Each element is below every later one in the default sort order, so none repeats. */
  predicate StrictlySorted(s: seq<string>) {
    forall i, j :: 0 <= i < j < |s| ==> Below(s[i], s[j])
  }

  /** Putting `x` in front of a sorted sequence whose elements are all above it keeps it sorted. */
  lemma ConsSorted(x: string, s: seq<string>)
    requires StrictlySorted(s)
    requires forall y :: y in s ==> Below(x, y)
    ensures StrictlySorted([x] + s)
  {
    var t := [x] + s;
    forall i, j | 0 <= i < j < |t|
      ensures Below(t[i], t[j])
    {
      assert t[j] == s[j - 1];
      if i > 0 {
        assert t[i] == s[i - 1];
      }
    }
  }

  /** The tail of a sorted sequence is sorted. */
  lemma TailSorted(s: seq<string>)
    requires StrictlySorted(s) && |s| > 0
    ensures StrictlySorted(s[1..])
  {
    forall i, j | 0 <= i < j < |s| - 1
      ensures Below(s[1..][i], s[1..][j])
    {
      assert s[1..][i] == s[i + 1] && s[1..][j] == s[j + 1];
    }
  }

  /** `x` added to a sorted sequence, in its place, unless it is there already. */
  function Insert(x: string, s: seq<string>): (r: seq<string>)
    requires StrictlySorted(s)
    ensures StrictlySorted(r)
    ensures forall y :: y in r <==> y == x || y in s
    decreases |s|
  {
    if |s| == 0 then [x]
    else if x == s[0] then s
    else if Below(x, s[0]) then
      assert forall y :: y in s ==> Below(x, y) by {
        forall y | y in s
          ensures Below(x, y)
        {
          var k :| 0 <= k < |s| && s[k] == y;
          if k > 0 {
            BelowTransitive(x, s[0], y);
          }
        }
      }
      ConsSorted(x, s);
      [x] + s
    else
      BelowTotal(x, s[0]);
      TailSorted(s);
      var rest := Insert(x, s[1..]);
      assert forall y :: y in rest ==> Below(s[0], y) by {
        forall y | y in rest
          ensures Below(s[0], y)
        {
          if y != x {
            var k :| 0 <= k < |s| - 1 && s[1..][k] == y;
            assert s[k + 1] == y;
          }
        }
      }
      ConsSorted(s[0], rest);
      assert s == [s[0]] + s[1..];
      [s[0]] + rest
  }

  /** The distinct elements of `xs`, sorted. */
  function SortedDistinct(xs: seq<string>): (r: seq<string>)
    ensures StrictlySorted(r)
    ensures forall y :: y in r <==> y in xs
    decreases |xs|
  {
    if |xs| == 0 then []
    else
      var init := xs[..|xs| - 1];
      var r := Insert(xs[|xs| - 1], SortedDistinct(init));
      assert xs == init + [xs[|xs| - 1]];
      r
  }

  /** A strictly sorted sequence has no element twice. */
  lemma SortedHasNoDuplicates(s: seq<string>)
    requires StrictlySorted(s)
    ensures forall i, j :: 0 <= i < j < |s| ==> s[i] != s[j]
  {
    forall i, j | 0 <= i < j < |s|
      ensures s[i] != s[j]
    {
      BelowIrreflexive(s[i]);
    }
  }

  /** Sequences holding the same elements are empty together. */
  lemma SameElementsEmpty(a: seq<string>, b: seq<string>)
    requires forall y :: y in a <==> y in b
    ensures |a| > 0 <==> |b| > 0
  {
    if |a| > 0 {
      assert a[0] in b;
    }
    if |b| > 0 {
      assert b[0] in a;
    }
  }

  /** Two strictly sorted sequences holding the same elements are equal: the
      sorted distinct form of a collection is unique. */
  lemma {:induction false} SortedUnique(a: seq<string>, b: seq<string>)
    requires StrictlySorted(a) && StrictlySorted(b)
    requires forall y :: y in a <==> y in b
    ensures a == b
    decreases |a|
  {
    SameElementsEmpty(a, b);
    if |a| > 0 {
      assert a[0] in b && b[0] in a;
      var k :| 0 <= k < |b| && b[k] == a[0];
      var m :| 0 <= m < |a| && a[m] == b[0];
      if a[0] != b[0] {
        assert k > 0 && m > 0;
        BelowTransitive(a[0], b[0], a[0]);
        BelowIrreflexive(a[0]);
        assert false;
      }
      TailSorted(a);
      TailSorted(b);
      SortedHasNoDuplicates(a);
      SortedHasNoDuplicates(b);
      forall y
        ensures y in a[1..] <==> y in b[1..]
      {
        if y in a[1..] {
          var i :| 0 <= i < |a| - 1 && a[1..][i] == y;
          assert a[i + 1] == y && y != a[0];
          assert y in a && y in b;
          var j :| 0 <= j < |b| && b[j] == y;
          assert j > 0 && b[1..][j - 1] == y;
        }
        if y in b[1..] {
          var i :| 0 <= i < |b| - 1 && b[1..][i] == y;
          assert b[i + 1] == y && y != b[0];
          assert y in b && y in a;
          var j :| 0 <= j < |a| && a[j] == y;
          assert j > 0 && a[1..][j - 1] == y;
        }
      }
      SortedUnique(a[1..], b[1..]);
      assert a == [a[0]] + a[1..] && b == [b[0]] + b[1..];
    }
  }

  function TldsOf(results: seq<DomainResult>): (r: seq<string>)
    ensures |r| == |results| && forall i :: 0 <= i < |results| ==> r[i] == results[i].tld
  {
    seq(|results|, i requires 0 <= i < |results| => results[i].tld)
  }

  function KeywordsOf(results: seq<DomainResult>): (r: seq<string>)
    ensures |r| == |results| && forall i :: 0 <= i < |results| ==> r[i] == results[i].keyword
  {
    seq(|results|, i requires 0 <= i < |results| => results[i].keyword)
  }

  // ---------------------------------------------------------------------------
  // The result matrix
  // ---------------------------------------------------------------------------

  type Matrix = map<string, map<string, bool>>

  /** The matrix after recording `results` in order, later records overwriting earlier ones. */
  function MatrixOf(results: seq<DomainResult>): Matrix
    decreases |results|
  {
    if |results| == 0 then map[]
    else
      var m := MatrixOf(results[..|results| - 1]);
      var r := results[|results| - 1];
      var row := if r.keyword in m then m[r.keyword] else map[];
      m[r.keyword := row[r.tld := r.available]]
  }

  method BuildMatrix(results: seq<DomainResult>) returns (matrix: Matrix)
    ensures matrix == MatrixOf(results)
  {
    matrix := map[];
    for k := 0 to |results|
      invariant matrix == MatrixOf(results[..k])
    {
      assert results[..k + 1][..k] == results[..k];
      var result := results[k];
      if result.keyword !in matrix {
        matrix := matrix[result.keyword := map[]];
      }
      matrix := matrix[result.keyword := matrix[result.keyword][result.tld := result.available]];
    }
    assert results[..|results|] == results;
  }

  predicate Records(r: DomainResult, keyword: string, tld: string) {
    r.keyword == keyword && r.tld == tld
  }

  /** `results[i]` is the last record of the pair (`keyword`, `tld`). */
  predicate IsLastRecord(results: seq<DomainResult>, keyword: string, tld: string, i: int) {
    && 0 <= i < |results|
    && Records(results[i], keyword, tld)
    && forall j :: i < j < |results| ==> !Records(results[j], keyword, tld)
  }

  /** The matrix has a row for exactly the keywords that occur, a cell for
      exactly the pairs that occur, and each cell holds the last record's flag. */
  lemma {:induction false} MatrixLookup(results: seq<DomainResult>, keyword: string, tld: string)
    ensures keyword in MatrixOf(results) <==> exists i :: 0 <= i < |results| && results[i].keyword == keyword
    ensures (keyword in MatrixOf(results) && tld in MatrixOf(results)[keyword]) <==>
            exists i :: IsLastRecord(results, keyword, tld, i)
    ensures forall i :: IsLastRecord(results, keyword, tld, i) ==>
            MatrixOf(results)[keyword][tld] == results[i].available
    decreases |results|
  {
    if |results| > 0 {
      var n := |results| - 1;
      var init := results[..n];
      MatrixLookup(init, keyword, tld);
      assert forall i :: 0 <= i < n ==> init[i] == results[i];
      if Records(results[n], keyword, tld) {
        assert IsLastRecord(results, keyword, tld, n);
        forall i | IsLastRecord(results, keyword, tld, i)
          ensures i == n
        {
        }
      } else {
        forall i | IsLastRecord(results, keyword, tld, i)
          ensures IsLastRecord(init, keyword, tld, i)
        {
        }
        forall i | IsLastRecord(init, keyword, tld, i)
          ensures IsLastRecord(results, keyword, tld, i)
        {
        }
      }
    }
  }

  /** The symbol of one cell: a tick exactly when the pair was recorded as available. */
  function Mark(matrix: Matrix, keyword: string, tld: string): string {
    if keyword in matrix && tld in matrix[keyword] && matrix[keyword][tld] then Tick else Cross
  }

  /** A cell shows a tick exactly when the last result for its pair is available;
      a pair recorded as taken, or never recorded, shows a cross. */
  lemma MarkIsLastRecord(results: seq<DomainResult>, keyword: string, tld: string)
    ensures Mark(MatrixOf(results), keyword, tld) == Tick <==>
            exists i :: IsLastRecord(results, keyword, tld, i) && results[i].available
    ensures Mark(MatrixOf(results), keyword, tld) == Tick || Mark(MatrixOf(results), keyword, tld) == Cross
  {
    MatrixLookup(results, keyword, tld);
  }

  // ---------------------------------------------------------------------------
  // Column widths
  // ---------------------------------------------------------------------------

  datatype Widths = Widths(domain: nat, tlds: seq<nat>)

  /** `Math.max(0, ...lengths)`: the length of the longest string. */
  function Longest(ks: seq<string>): (m: nat)
    ensures forall k :: 0 <= k < |ks| ==> |ks[k]| <= m
    ensures |ks| == 0 ==> m == 0
    ensures |ks| > 0 ==> exists k :: 0 <= k < |ks| && |ks[k]| == m
    decreases |ks|
  {
    if |ks| == 0 then 0
    else
      var m := Longest(ks[1..]);
      assert forall k :: 1 <= k < |ks| ==> ks[k] == ks[1..][k - 1];
      if |ks[0]| > m then |ks[0]| else m
  }

  /** The domain column fits every keyword and is at least 9 wide;
      each TLD column fits its TLD and a symbol, at least 3 wide. */
  function CalculateColumnWidths(keywords: seq<string>, tlds: seq<string>): (w: Widths)
    ensures w.domain >= 9 && forall k :: 0 <= k < |keywords| ==> |keywords[k]| <= w.domain
    ensures w.domain == 9 || exists k :: 0 <= k < |keywords| && |keywords[k]| == w.domain
    ensures |w.tlds| == |tlds|
    ensures forall i :: 0 <= i < |tlds| ==> w.tlds[i] >= 3 && w.tlds[i] >= |tlds[i]|
    ensures forall i :: 0 <= i < |tlds| ==> w.tlds[i] == 3 || w.tlds[i] == |tlds[i]|
  {
    var longest := Longest(keywords);
    Widths(if longest > 9 then longest else 9,
           seq(|tlds|, i requires 0 <= i < |tlds| => if |tlds[i]| > 3 then |tlds[i]| else 3))
  }

  /** The widths fit the labels: every column is at least as wide as its text. */
  predicate Fits(w: Widths, tlds: seq<string>) {
    |w.tlds| == |tlds| && forall i :: 0 <= i < |tlds| ==> |tlds[i]| <= w.tlds[i]
  }

  // ---------------------------------------------------------------------------
  // The rows, as values
  // ---------------------------------------------------------------------------

  function Dashes(n: nat): (r: string)
    ensures |r| == n && '\n' !in r
  {
    Repeat('─', n)
  }

  /** The horizontal rule above each TLD column. */
  function Rules(ws: seq<nat>): (r: seq<string>)
    ensures |r| == |ws|
    ensures forall i :: 0 <= i < |ws| ==> r[i] == Dashes(ws[i] + 2)
  {
    seq(|ws|, i requires 0 <= i < |ws| => Dashes(ws[i] + 2))
  }

  /** A horizontal border: `left`, the domain rule, `mid`, the TLD rules joined by `mid`, `right`. */
  function Border(left: char, mid: char, right: char, w: Widths): string {
    [left] + Dashes(w.domain + 2) + [mid] + Join(Rules(w.tlds), [mid]) + [right]
  }

  /** The first cell of a content row. */
  function FirstCell(text: string, width: nat): string {
    "│ " + PadEnd(text, width) + " │"
  }

  /** One TLD cell of a content row. */
  function Cell(text: string, width: nat): string {
    " " + PadEnd(text, width) + " │"
  }

  function Cells(labels: seq<string>, ws: seq<nat>): (r: seq<string>)
    requires |labels| == |ws|
    ensures |r| == |labels|
    ensures forall i :: 0 <= i < |labels| ==> r[i] == Cell(labels[i], ws[i])
  {
    seq(|labels|, i requires 0 <= i < |labels| => Cell(labels[i], ws[i]))
  }

  /** A content row: the first cell, then one cell per column, concatenated. */
  function Row(first: string, labels: seq<string>, w: Widths): string
    requires |labels| == |w.tlds|
  {
    Join([FirstCell(first, w.domain)] + Cells(labels, w.tlds), "")
  }

  function HeaderRow(tlds: seq<string>, w: Widths): string
    requires |tlds| == |w.tlds|
  {
    Border('┌', '┬', '┐', w) + "\n" + Row("Domain", tlds, w)
  }

  function SeparatorRow(w: Widths): string {
    Border('├', '┼', '┤', w)
  }

  function BottomRow(w: Widths): string {
    Border('└', '┴', '┘', w)
  }

  /** The symbols of one keyword's row, column by column. */
  function Marks(matrix: Matrix, keyword: string, tlds: seq<string>): (r: seq<string>)
    ensures |r| == |tlds|
    ensures forall i :: 0 <= i < |tlds| ==> r[i] == Mark(matrix, keyword, tlds[i])
  {
    seq(|tlds|, i requires 0 <= i < |tlds| => Mark(matrix, keyword, tlds[i]))
  }

  function DataRow(keyword: string, tlds: seq<string>, matrix: Matrix, w: Widths): string
    requires |tlds| == |w.tlds|
  {
    Row(keyword, Marks(matrix, keyword, tlds), w)
  }

  function DataRows(keywords: seq<string>, tlds: seq<string>, matrix: Matrix, w: Widths): (r: seq<string>)
    requires |tlds| == |w.tlds|
    ensures |r| == |keywords|
    ensures forall i :: 0 <= i < |keywords| ==> r[i] == DataRow(keywords[i], tlds, matrix, w)
  {
    seq(|keywords|, i requires 0 <= i < |keywords| => DataRow(keywords[i], tlds, matrix, w))
  }

  /** The pieces of a table, before they are joined with line breaks. */
  datatype Layout = Layout(tlds: seq<string>, keywords: seq<string>, matrix: Matrix, widths: Widths)

  function LayoutOf(results: seq<DomainResult>): (l: Layout)
    ensures |l.widths.tlds| == |l.tlds|
  {
    var tlds := SortedDistinct(TldsOf(results));
    var keywords := SortedDistinct(KeywordsOf(results));
    Layout(tlds, keywords, MatrixOf(results), CalculateColumnWidths(keywords, tlds))
  }

  /** The entries of `lines` after the header: separator, data rows, bottom. */
  function BodyEntries(l: Layout): seq<string>
    requires |l.widths.tlds| == |l.tlds|
  {
    [SeparatorRow(l.widths)] + DataRows(l.keywords, l.tlds, l.matrix, l.widths) + [BottomRow(l.widths)]
  }

  /** The entries of `lines` in `formatResultsTable`. */
  function TableEntries(l: Layout): seq<string>
    requires |l.widths.tlds| == |l.tlds|
  {
    [HeaderRow(l.tlds, l.widths)] + BodyEntries(l)
  }

  /** What `formatResultsTable(results)` returns. */
  function TableText(results: seq<DomainResult>): string {
    if |results| == 0 then NoResults
    else
      var l := LayoutOf(results);
      Join(TableEntries(l), "\n")
  }

  // ---------------------------------------------------------------------------
  // The rows, as built
  // ---------------------------------------------------------------------------

  /** The border part of `formatHeaderRow`, `formatSeparatorRow` and `formatBottomRow`. */
  method FormatBorder(left: char, mid: char, right: char, tlds: seq<string>, widths: Widths)
    returns (line: string)
    requires |widths.tlds| == |tlds|
    ensures line == Border(left, mid, right, widths)
  {
    var first := [left] + Repeat('─', widths.domain + 2) + [mid];
    var tldParts: seq<string> := [];
    for i := 0 to |tlds|
      invariant tldParts == Rules(widths.tlds[..i])
    {
      tldParts := tldParts + [Repeat('─', widths.tlds[i] + 2)];
    }
    assert widths.tlds[..|tlds|] == widths.tlds;
    var borderParts := [first, Join(tldParts, [mid]), [right]];
    line := Join(borderParts, "");
    assert borderParts[1..] == [Join(tldParts, [mid]), [right]];
    assert borderParts[1..][1..] == [[right]];
    assert Join(borderParts[1..][1..], "") == [right];
    assert Join(borderParts[1..], "") == Join(tldParts, [mid]) + "" + [right];
    assert line == first + "" + (Join(tldParts, [mid]) + "" + [right]);
  }

  /** The cells after the first of a content row, as `row.push` builds them. */
  method FormatCells(labels: seq<string>, widths: Widths) returns (cells: seq<string>)
    requires |widths.tlds| == |labels|
    ensures cells == Cells(labels, widths.tlds)
  {
    cells := [];
    for i := 0 to |labels|
      invariant cells == Cells(labels[..i], widths.tlds[..i])
    {
      cells := cells + [" " + PadEnd(labels[i], widths.tlds[i]) + " │"];
    }
    assert labels[..|labels|] == labels && widths.tlds[..|labels|] == widths.tlds;
  }

  method FormatHeaderRow(tlds: seq<string>, widths: Widths) returns (row: string)
    requires |widths.tlds| == |tlds|
    ensures row == HeaderRow(tlds, widths)
  {
    var borderLine := FormatBorder('┌', '┬', '┐', tlds, widths);
    var cells := FormatCells(tlds, widths);
    var contentLine := Join(["│ " + PadEnd("Domain", widths.domain) + " │"] + cells, "");
    row := borderLine + "\n" + contentLine;
  }

  method FormatSeparatorRow(tlds: seq<string>, widths: Widths) returns (row: string)
    requires |widths.tlds| == |tlds|
    ensures row == SeparatorRow(widths)
  {
    row := FormatBorder('├', '┼', '┤', tlds, widths);
  }

  method FormatBottomRow(tlds: seq<string>, widths: Widths) returns (row: string)
    requires |widths.tlds| == |tlds|
    ensures row == BottomRow(widths)
  {
    row := FormatBorder('└', '┴', '┘', tlds, widths);
  }

  method FormatDataRow(keyword: string, tlds: seq<string>, matrix: Matrix, widths: Widths)
    returns (row: string)
    requires |widths.tlds| == |tlds|
    ensures row == DataRow(keyword, tlds, matrix, widths)
  {
    var symbols: seq<string> := [];
    for i := 0 to |tlds|
      invariant symbols == Marks(matrix, keyword, tlds[..i])
    {
      var available := keyword in matrix && tlds[i] in matrix[keyword] && matrix[keyword][tlds[i]];
      var symbol := if available then Tick else Cross;
      symbols := symbols + [symbol];
    }
    assert tlds[..|tlds|] == tlds;
    var cells := FormatCells(symbols, widths);
    row := Join(["│ " + PadEnd(keyword, widths.domain) + " │"] + cells, "");
  }

  method FormatResultsTable(results: seq<DomainResult>) returns (table: string)
    ensures table == TableText(results)
    ensures |results| == 0 ==> table == NoResults
  {
    if |results| == 0 {
      return NoResults;
    }
    var tlds := SortedDistinct(TldsOf(results));
    var keywords := SortedDistinct(KeywordsOf(results));
    var resultMatrix := BuildMatrix(results);
    var columnWidths := CalculateColumnWidths(keywords, tlds);
    ghost var l := Layout(tlds, keywords, resultMatrix, columnWidths);
    assert l == LayoutOf(results);
    var lines := FormatLines(tlds, keywords, resultMatrix, columnWidths);
    table := Join(lines, "\n");
  }

  lemma DataRowsSnoc(keywords: seq<string>, k: nat, tlds: seq<string>, matrix: Matrix, w: Widths)
    requires k < |keywords| && |tlds| == |w.tlds|
    ensures DataRows(keywords[..k + 1], tlds, matrix, w)
            == DataRows(keywords[..k], tlds, matrix, w) + [DataRow(keywords[k], tlds, matrix, w)]
  {
    assert keywords[..k + 1][..k] == keywords[..k];
  }

  /** The loop of `formatResultsTable` that pushes one data row per keyword. */
  method FormatDataRows(keywords: seq<string>, tlds: seq<string>, resultMatrix: Matrix, columnWidths: Widths)
    returns (rows: seq<string>)
    requires |columnWidths.tlds| == |tlds|
    ensures rows == DataRows(keywords, tlds, resultMatrix, columnWidths)
  {
    rows := [];
    for k := 0 to |keywords|
      invariant rows == DataRows(keywords[..k], tlds, resultMatrix, columnWidths)
    {
      var row := FormatDataRow(keywords[k], tlds, resultMatrix, columnWidths);
      DataRowsSnoc(keywords, k, tlds, resultMatrix, columnWidths);
      rows := rows + [row];
    }
    assert keywords[..|keywords|] == keywords;
  }

  /** The `lines` of `formatResultsTable`: header, separator, one row per keyword, bottom. */
  method FormatLines(tlds: seq<string>, keywords: seq<string>, resultMatrix: Matrix, columnWidths: Widths)
    returns (lines: seq<string>)
    requires |columnWidths.tlds| == |tlds|
    ensures lines == TableEntries(Layout(tlds, keywords, resultMatrix, columnWidths))
  {
    var header := FormatHeaderRow(tlds, columnWidths);
    var separator := FormatSeparatorRow(tlds, columnWidths);
    var rows := FormatDataRows(keywords, tlds, resultMatrix, columnWidths);
    var bottom := FormatBottomRow(tlds, columnWidths);
    lines := [header] + ([separator] + rows + [bottom]);
  }

  // ---------------------------------------------------------------------------
  // The shape of the table
  // ---------------------------------------------------------------------------

  function Sum(ws: seq<nat>): nat
    decreases |ws|
  {
    if |ws| == 0 then 0 else ws[0] + Sum(ws[1..])
  }

  /** The width every line of a table with these column widths has. */
  function LineWidth(w: Widths): nat {
    w.domain + 4 + Sum(w.tlds) + 3 * |w.tlds|
  }

  /** The lines of the table as they appear, the header's border and content apart. */
  function TableLines(l: Layout): seq<string>
    requires |l.widths.tlds| == |l.tlds|
  {
    [Border('┌', '┬', '┐', l.widths), Row("Domain", l.tlds, l.widths)] + BodyEntries(l)
  }

  lemma TotalLengthCons(x: string, rest: seq<string>)
    ensures TotalLength([x] + rest) == |x| + TotalLength(rest)
  {
    assert ([x] + rest)[1..] == rest;
  }

  lemma {:induction false} RulesTotal(ws: seq<nat>)
    ensures TotalLength(Rules(ws)) == Sum(ws) + 2 * |ws|
    decreases |ws|
  {
    if |ws| > 0 {
      assert Rules(ws)[1..] == Rules(ws[1..]);
      RulesTotal(ws[1..]);
    }
  }

  lemma {:induction false} CellsTotal(texts: seq<string>, ws: seq<nat>)
    requires |texts| == |ws|
    requires forall i :: 0 <= i < |ws| ==> |texts[i]| <= ws[i]
    ensures TotalLength(Cells(texts, ws)) == Sum(ws) + 3 * |ws|
    decreases |ws|
  {
    if |ws| > 0 {
      assert Cells(texts, ws)[1..] == Cells(texts[1..], ws[1..]);
      CellsTotal(texts[1..], ws[1..]);
    }
  }

  /** A border spans the full width of the table. */
  lemma BorderLength(left: char, mid: char, right: char, w: Widths)
    requires |w.tlds| >= 1
    ensures |Border(left, mid, right, w)| == LineWidth(w)
  {
    JoinLength(Rules(w.tlds), [mid]);
    RulesTotal(w.tlds);
  }

  /** A content row spans the full width when every text fits its column. */
  lemma RowLength(first: string, texts: seq<string>, w: Widths)
    requires |texts| == |w.tlds|
    requires |first| <= w.domain
    requires forall i :: 0 <= i < |texts| ==> |texts[i]| <= w.tlds[i]
    ensures |Row(first, texts, w)| == LineWidth(w)
  {
    var parts := [FirstCell(first, w.domain)] + Cells(texts, w.tlds);
    JoinLength(parts, "");
    TotalLengthCons(FirstCell(first, w.domain), Cells(texts, w.tlds));
    CellsTotal(texts, w.tlds);
  }

  /** A layout whose widths fit all of its texts, with at least one column. */
  predicate WellFormed(l: Layout) {
    && |l.tlds| >= 1
    && Fits(l.widths, l.tlds)
    && l.widths.domain >= 6
    && (forall i :: 0 <= i < |l.widths.tlds| ==> l.widths.tlds[i] >= 1)
    && forall k :: 0 <= k < |l.keywords| ==> |l.keywords[k]| <= l.widths.domain
  }

  /** No keyword or TLD of the layout holds a line break. */
  predicate OneLineTexts(l: Layout) {
    && (forall k :: 0 <= k < |l.tlds| ==> '\n' !in l.tlds[k])
    && (forall k :: 0 <= k < |l.keywords| ==> '\n' !in l.keywords[k])
  }

  /** The layout of a non-empty result list is well formed, and its texts are
      on one line when those of the results are. */
  lemma LayoutFits(results: seq<DomainResult>)
    requires |results| > 0
    ensures WellFormed(LayoutOf(results))
    ensures (forall i :: 0 <= i < |results| ==> '\n' !in results[i].keyword && '\n' !in results[i].tld) ==>
              OneLineTexts(LayoutOf(results))
  {
    var l := LayoutOf(results);
    assert results[0].tld in TldsOf(results);
    assert forall k :: 0 <= k < |l.tlds| ==> l.tlds[k] in TldsOf(results);
    assert forall k :: 0 <= k < |l.keywords| ==> l.keywords[k] in KeywordsOf(results);
  }

  /** The table is its lines joined with line breaks, and it has one line per
      keyword and four more: the header's two, the separator and the bottom. */
  lemma LinesOfLayout(l: Layout)
    requires |l.widths.tlds| == |l.tlds|
    ensures Join(TableEntries(l), "\n") == Join(TableLines(l), "\n")
    ensures |TableLines(l)| == |l.keywords| + 4
  {
    JoinMerge(Border('┌', '┬', '┐', l.widths), Row("Domain", l.tlds, l.widths), BodyEntries(l), "\n");
  }

  /** Every data row of a well-formed layout spans the full width. */
  lemma DataRowsWidth(l: Layout)
    requires WellFormed(l)
    ensures forall i :: 0 <= i < |l.keywords| ==>
              |DataRows(l.keywords, l.tlds, l.matrix, l.widths)[i]| == LineWidth(l.widths)
  {
    var w := l.widths;
    forall i | 0 <= i < |l.keywords|
      ensures |DataRows(l.keywords, l.tlds, l.matrix, w)[i]| == LineWidth(w)
    {
      var marks := Marks(l.matrix, l.keywords[i], l.tlds);
      assert forall j :: 0 <= j < |marks| ==> |marks[j]| == 1;
      RowLength(l.keywords[i], marks, w);
    }
  }

  /** Where each piece sits in a header, a separator, rows and a bottom. */
  lemma PiecesAt(a: string, b: string, c: string, rows: seq<string>, d: string)
    ensures var lines := [a, b] + ([c] + rows + [d]);
      && |lines| == |rows| + 4
      && lines[0] == a && lines[1] == b && lines[2] == c && lines[|rows| + 3] == d
      && forall k :: 3 <= k < |rows| + 3 ==> lines[k] == rows[k - 3]
  {
  }

  /** Every line of a table with a well-formed layout has the same length. */
  lemma LinesSameWidth(l: Layout)
    requires WellFormed(l)
    ensures forall k :: 0 <= k < |TableLines(l)| ==> |TableLines(l)[k]| == LineWidth(l.widths)
  {
    var w := l.widths;
    BorderLength('┌', '┬', '┐', w);
    BorderLength('├', '┼', '┤', w);
    BorderLength('└', '┴', '┘', w);
    RowLength("Domain", l.tlds, w);
    DataRowsWidth(l);
    var rows := DataRows(l.keywords, l.tlds, l.matrix, w);
    PiecesAt(Border('┌', '┬', '┐', w), Row("Domain", l.tlds, w), SeparatorRow(w), rows, BottomRow(w));
  }

  /** A content row has a line break only where one of its texts has one. */
  lemma RowKeepsOutNewline(first: string, texts: seq<string>, w: Widths)
    requires |texts| == |w.tlds|
    requires '\n' !in first
    requires forall i :: 0 <= i < |texts| ==> '\n' !in texts[i]
    ensures '\n' !in Row(first, texts, w)
  {
    PadEndKeepsOut(first, w.domain, '\n');
    var parts := [FirstCell(first, w.domain)] + Cells(texts, w.tlds);
    forall k | 0 <= k < |parts|
      ensures '\n' !in parts[k]
    {
      if k > 0 {
        PadEndKeepsOut(texts[k - 1], w.tlds[k - 1], '\n');
      }
    }
    JoinKeepsOut(parts, "", '\n');
  }

  lemma BorderKeepsOutNewline(left: char, mid: char, right: char, w: Widths)
    requires left != '\n' && mid != '\n' && right != '\n'
    ensures '\n' !in Border(left, mid, right, w)
  {
    JoinKeepsOut(Rules(w.tlds), [mid], '\n');
  }

  /** Splitting the joined lines at line breaks gives them back. */
  lemma SplitLines(l: Layout)
    requires |l.widths.tlds| == |l.tlds|
    requires OneLineTexts(l)
    ensures Split(Join(TableLines(l), "\n"), '\n') == TableLines(l)
  {
    var w := l.widths;
    BorderKeepsOutNewline('┌', '┬', '┐', w);
    BorderKeepsOutNewline('├', '┼', '┤', w);
    BorderKeepsOutNewline('└', '┴', '┘', w);
    RowKeepsOutNewline("Domain", l.tlds, w);
    var rows := DataRows(l.keywords, l.tlds, l.matrix, w);
    forall i | 0 <= i < |l.keywords|
      ensures '\n' !in rows[i]
    {
      RowKeepsOutNewline(l.keywords[i], Marks(l.matrix, l.keywords[i], l.tlds), w);
    }
    PiecesAt(Border('┌', '┬', '┐', w), Row("Domain", l.tlds, w), SeparatorRow(w), rows, BottomRow(w));
    SplitJoin(TableLines(l), '\n');
  }

  /** When no keyword or TLD holds a line break, splitting a non-empty table at
      line breaks gives back its lines: one per distinct keyword and four more,
      all of the same length. */
  lemma TableShape(results: seq<DomainResult>)
    requires |results| > 0
    requires forall i :: 0 <= i < |results| ==> '\n' !in results[i].keyword && '\n' !in results[i].tld
    ensures var lines := Split(TableText(results), '\n');
      && lines == TableLines(LayoutOf(results))
      && |lines| == |LayoutOf(results).keywords| + 4
      && forall k :: 0 <= k < |lines| ==> |lines[k]| == LineWidth(LayoutOf(results).widths)
  {
    var l := LayoutOf(results);
    assert TableText(results) == Join(TableEntries(l), "\n");
    LayoutFits(results);
    LinesOfLayout(l);
    LinesSameWidth(l);
    SplitLines(l);
  }

  /** Columns are the distinct TLDs in sorted order, rows the distinct keywords
      in sorted order, and no other order has those properties. */
  lemma LayoutOrder(results: seq<DomainResult>, tlds: seq<string>, keywords: seq<string>)
    ensures var l := LayoutOf(results);
      && StrictlySorted(l.tlds)
      && (forall t :: t in l.tlds <==> exists i :: 0 <= i < |results| && results[i].tld == t)
      && StrictlySorted(l.keywords)
      && (forall k :: k in l.keywords <==> exists i :: 0 <= i < |results| && results[i].keyword == k)
    ensures StrictlySorted(tlds) && (forall t :: t in tlds <==> t in TldsOf(results)) ==>
              tlds == LayoutOf(results).tlds
    ensures StrictlySorted(keywords) && (forall k :: k in keywords <==> k in KeywordsOf(results)) ==>
              keywords == LayoutOf(results).keywords
  {
    var l := LayoutOf(results);
    forall t
      ensures t in TldsOf(results) <==> exists i :: 0 <= i < |results| && results[i].tld == t
    {
      if t in TldsOf(results) {
        var i :| 0 <= i < |results| && TldsOf(results)[i] == t;
      }
    }
    forall k
      ensures k in KeywordsOf(results) <==> exists i :: 0 <= i < |results| && results[i].keyword == k
    {
      if k in KeywordsOf(results) {
        var i :| 0 <= i < |results| && KeywordsOf(results)[i] == k;
      }
    }
    if StrictlySorted(tlds) && (forall t :: t in tlds <==> t in TldsOf(results)) {
      SortedUnique(tlds, l.tlds);
    }
    if StrictlySorted(keywords) && (forall k :: k in keywords <==> k in KeywordsOf(results)) {
      SortedUnique(keywords, l.keywords);
    }
  }

  // ---------------------------------------------------------------------------
  // Counting
  // ---------------------------------------------------------------------------

  /** The number of results flagged available. */
  function CountAvailable(results: seq<DomainResult>): (n: nat)
    ensures n <= |results|
    decreases |results|
  {
    if |results| == 0 then 0
    else CountAvailable(results[..|results| - 1]) + (if results[|results| - 1].available then 1 else 0)
  }

  method CountResults(results: seq<DomainResult>) returns (available: nat, taken: nat)
    ensures available == CountAvailable(results)
    ensures available + taken == |results|
  {
    available, taken := 0, 0;
    for k := 0 to |results|
      invariant available == CountAvailable(results[..k])
      invariant available + taken == k
    {
      assert results[..k + 1][..k] == results[..k];
      if results[k].available {
        available := available + 1;
      } else {
        taken := taken + 1;
      }
    }
    assert results[..|results|] == results;
  }
}
