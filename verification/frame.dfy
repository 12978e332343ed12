/**
 The per-file transform of `shift_sentiment_bitget.py`: strip the header,
 check that the four sentiment columns are present, and shift those columns
 up by one row.

 A table is what the tab-separated reader hands back: named columns of equal
 length, each cell either a parsed value or missing (pandas' NaN). Cells are
 opaque; nothing here depends on their numeric meaning.
 */
module Frame {
  import opened Text

  /** One parsed field of a delimited file. */
  datatype Cell = Missing | Present(text: string)

  datatype Column = Column(name: string, cells: seq<Cell>)

  /** Column-major, as a data frame is; `rowCount` survives even when there
      are no columns. */
  datatype Table = Table(columns: seq<Column>, rowCount: nat)

  /** Every column holds exactly one cell per row. */
  predicate WellFormed(t: Table) {
    forall j :: 0 <= j < |t.columns| ==> |t.columns[j].cells| == t.rowCount
  }

  function Header(t: Table): (names: seq<string>)
    ensures |names| == |t.columns|
    ensures forall j :: 0 <= j < |t.columns| ==> names[j] == t.columns[j].name
  {
    seq(|t.columns|, j requires 0 <= j < |t.columns| => t.columns[j].name)
  }

  /** Row `i` read left to right. */
  function Row(t: Table, i: nat): (row: seq<Cell>)
    requires WellFormed(t) && i < t.rowCount
    ensures |row| == |t.columns|
    ensures forall j :: 0 <= j < |t.columns| ==> row[j] == t.columns[j].cells[i]
  {
    seq(|t.columns|, j requires 0 <= j < |t.columns| => t.columns[j].cells[i])
  }

  /** The columns the script moves, in the order it lists them. */
  const SentimentColumns: seq<string> := ["vader", "finbert", "sentiment_ratio", "sentiment_combined"]

  predicate IsSentiment(name: string) {
    name in SentimentColumns
  }

  /** `df.columns = df.columns.str.strip()`: every column name loses its
      surrounding whitespace; order, count and cells stay as they are. */
  function StripHeader(t: Table): (s: Table)
    ensures |s.columns| == |t.columns| && s.rowCount == t.rowCount
    ensures forall j :: 0 <= j < |t.columns| ==>
              s.columns[j].name == Strip(t.columns[j].name) && s.columns[j].cells == t.columns[j].cells
    ensures WellFormed(t) ==> WellFormed(s)
  {
    Table(seq(|t.columns|, j requires 0 <= j < |t.columns| =>
                Column(Strip(t.columns[j].name), t.columns[j].cells)),
          t.rowCount)
  }

  /** The names in `wanted` that `header` lacks, in the order of `wanted`
      (the script's `missing_cols` comprehension). */
  function MissingFrom(wanted: seq<string>, header: seq<string>): (missing: seq<string>)
    ensures |missing| <= |wanted|
    ensures forall c :: c in missing <==> c in wanted && c !in header
  {
    if wanted == [] then []
    else
      var init := wanted[..|wanted| - 1];
      var last := wanted[|wanted| - 1];
      assert wanted == init + [last];
      MissingFrom(init, header) + (if last in header then [] else [last])
  }

  /** The positions in `wanted` of the names `header` lacks: increasing, each
      an absent name, and every absent name's position among them. */
  function AbsentPositions(wanted: seq<string>, header: seq<string>): (rows: seq<nat>)
    ensures forall k :: 0 <= k < |rows| ==> rows[k] < |wanted| && wanted[rows[k]] !in header
    ensures forall i :: 0 <= i < |wanted| && wanted[i] !in header ==> i in rows
    ensures forall k, l :: 0 <= k < l < |rows| ==> rows[k] < rows[l]
  {
    if wanted == [] then []
    else
      var n := |wanted| - 1;
      var init := wanted[..n];
      assert forall i :: 0 <= i < n ==> init[i] == wanted[i];
      AbsentPositions(init, header) + (if wanted[n] in header then [] else [n])
  }

  /** The k-th reported name is the k-th absent name of `wanted`: the report
      keeps the order of `wanted` and lists each absent position once. */
  lemma {:induction false} MissingFromInOrder(wanted: seq<string>, header: seq<string>)
    ensures |MissingFrom(wanted, header)| == |AbsentPositions(wanted, header)|
    ensures forall k :: 0 <= k < |AbsentPositions(wanted, header)| ==>
              MissingFrom(wanted, header)[k] == wanted[AbsentPositions(wanted, header)[k]]
  {
    if wanted != [] {
      var n := |wanted| - 1;
      var init := wanted[..n];
      MissingFromInOrder(init, header);
      var rows := AbsentPositions(init, header);
      forall k | 0 <= k < |rows|
        ensures init[rows[k]] == wanted[rows[k]]
      {
      }
    }
  }

  function MissingColumns(header: seq<string>): (missing: seq<string>)
    ensures forall c :: c in missing <==> IsSentiment(c) && c !in header
    ensures missing == [] <==> forall c :: c in SentimentColumns ==> c in header
  {
    var m := MissingFrom(SentimentColumns, header);
    assert m != [] ==> m[0] in m;
    m
  }

  /** The four sentiment names are pairwise different (they even differ in
      length). */
  lemma SentimentColumnsDistinct()
    ensures forall i, j :: 0 <= i < j < |SentimentColumns| ==> SentimentColumns[i] != SentimentColumns[j]
  {
    assert |SentimentColumns[0]| == 5 && |SentimentColumns[1]| == 7;
    assert |SentimentColumns[2]| == 15 && |SentimentColumns[3]| == 18;
  }

  /** The warning lists the absent sentiment columns in the order the script
      declares them, each once. */
  lemma MissingColumnsInOrder(header: seq<string>)
    ensures var rows := AbsentPositions(SentimentColumns, header);
            && |MissingColumns(header)| == |rows|
            && forall k :: 0 <= k < |rows| ==> MissingColumns(header)[k] == SentimentColumns[rows[k]]
    ensures forall k, l :: 0 <= k < l < |MissingColumns(header)| ==>
              MissingColumns(header)[k] != MissingColumns(header)[l]
  {
    MissingFromInOrder(SentimentColumns, header);
    SentimentColumnsDistinct();
    var rows := AbsentPositions(SentimentColumns, header);
    var m := MissingColumns(header);
    forall k, l | 0 <= k < l < |m|
      ensures m[k] != m[l]
    {
      assert rows[k] < rows[l];
    }
  }

  /** pandas' `shift(-1)` on one column: row `i` takes row `i + 1`'s value
      and the last row becomes missing. */
  function ShiftUp(cells: seq<Cell>): (shifted: seq<Cell>)
    ensures |shifted| == |cells|
    ensures forall i :: 0 <= i < |cells| - 1 ==> shifted[i] == cells[i + 1]
    ensures cells != [] ==> shifted[|cells| - 1] == Missing
  {
    if cells == [] then [] else cells[1..] + [Missing]
  }

  function ShiftColumn(c: Column): Column {
    if IsSentiment(c.name) then Column(c.name, ShiftUp(c.cells)) else c
  }

  /** `df[sentiment_cols] = df[sentiment_cols].shift(-1)`: the sentiment
      columns move up one row, every other column stays row-aligned, and the
      shape of the table is kept. */
  function ShiftSentiment(t: Table): (s: Table)
    ensures s.rowCount == t.rowCount
    ensures Header(s) == Header(t)
    ensures WellFormed(t) ==> WellFormed(s)
    ensures forall j :: 0 <= j < |t.columns| && !IsSentiment(t.columns[j].name) ==>
              s.columns[j] == t.columns[j]
    ensures forall j :: 0 <= j < |t.columns| ==>
              s.columns[j].name == t.columns[j].name && |s.columns[j].cells| == |t.columns[j].cells|
    ensures forall j, i | 0 <= j < |t.columns| && IsSentiment(t.columns[j].name)
              && 0 <= i < |t.columns[j].cells| - 1 ::
              s.columns[j].cells[i] == t.columns[j].cells[i + 1]
    ensures forall j | 0 <= j < |t.columns| && IsSentiment(t.columns[j].name)
              && t.columns[j].cells != [] ::
              s.columns[j].cells[|t.columns[j].cells| - 1] == Missing
  {
    var s := Table(seq(|t.columns|, j requires 0 <= j < |t.columns| => ShiftColumn(t.columns[j])),
                   t.rowCount);
    assert Header(s) == Header(t);
    s
  }

  /** What the script does with one loaded file: skip it with the list of
      missing columns, or rewrite it with the shifted table. */
  datatype Outcome = Skip(missing: seq<string>) | Rewrite(table: Table)

  /** A sentiment column counts as present when some column's name, once
      stripped, is exactly that name. */
  predicate HasColumn(t: Table, name: string) {
    exists j :: 0 <= j < |t.columns| && Strip(t.columns[j].name) == name
  }

  /** The whole per-file step: strip the header, report the missing
      sentiment columns if there are any, otherwise shift. */
  function Transform(t: Table): (o: Outcome)
    ensures o.Skip? ==> o.missing != [] && forall c :: c in o.missing ==> IsSentiment(c) && !HasColumn(t, c)
    ensures o.Rewrite? ==> o.table.rowCount == t.rowCount && |o.table.columns| == |t.columns|
    ensures o.Rewrite? && WellFormed(t) ==> WellFormed(o.table)
  {
    var stripped := StripHeader(t);
    var missing := MissingColumns(Header(stripped));
    forall c | c in missing
      ensures !HasColumn(t, c)
    {
      StrippedHeaderHas(t, c);
    }
    if missing != [] then Skip(missing) else Rewrite(ShiftSentiment(stripped))
  }

  /** The column check looks at the stripped names. */
  lemma StrippedHeaderHas(t: Table, c: string)
    ensures c in Header(StripHeader(t)) <==> HasColumn(t, c)
  {
    var h := Header(StripHeader(t));
    if HasColumn(t, c) {
      var j :| 0 <= j < |t.columns| && Strip(t.columns[j].name) == c;
      assert h[j] == c;
    }
  }

  /** A file is skipped exactly when some sentiment column is absent from
      its stripped header, and the warning names exactly the absent ones. */
  lemma TransformSkips(t: Table)
    ensures Transform(t).Skip? <==> exists c :: IsSentiment(c) && !HasColumn(t, c)
    ensures Transform(t).Skip? ==>
              forall c :: c in Transform(t).missing <==> IsSentiment(c) && !HasColumn(t, c)
  {
    forall c
      ensures c in Header(StripHeader(t)) <==> HasColumn(t, c)
    {
      StrippedHeaderHas(t, c);
    }
  }

  /** When a file is rewritten, the header is the stripped header in the same
      order, the row count is kept, every other column keeps every cell in
      place, and each sentiment column moves up one row. */
  lemma TransformRewrites(t: Table)
    ensures Transform(t).Rewrite? ==>
            var s := Transform(t).table;
            && s.rowCount == t.rowCount
            && |s.columns| == |t.columns|
            && (WellFormed(t) ==> WellFormed(s))
            && (forall j :: 0 <= j < |t.columns| ==> s.columns[j].name == Strip(t.columns[j].name))
    ensures Transform(t).Rewrite? ==>
            var s := Transform(t).table;
            forall j | 0 <= j < |t.columns| && !IsSentiment(Strip(t.columns[j].name)) ::
              s.columns[j].cells == t.columns[j].cells
    ensures Transform(t).Rewrite? ==>
            var s := Transform(t).table;
            forall j | 0 <= j < |t.columns| && IsSentiment(Strip(t.columns[j].name)) ::
              s.columns[j].cells == ShiftUp(t.columns[j].cells)
  {
    var stripped := StripHeader(t);
    var s := ShiftSentiment(stripped);
    forall j | 0 <= j < |t.columns| && IsSentiment(Strip(t.columns[j].name))
      ensures s.columns[j].cells == ShiftUp(t.columns[j].cells)
    {
      var c := t.columns[j].cells;
      assert |s.columns[j].cells| == |c|;
      forall i | 0 <= i < |c|
        ensures s.columns[j].cells[i] == ShiftUp(c)[i]
      {
      }
    }
  }

  /** Undoing the shift needs only the old first row, which the backup keeps:
      prepend it and drop the missing last cell. */
  function Unshift(first: Cell, shifted: seq<Cell>): seq<Cell> {
    if shifted == [] then [] else [first] + shifted[..|shifted| - 1]
  }

  lemma ShiftUpRoundTrip(cells: seq<Cell>)
    requires cells != []
    ensures Unshift(cells[0], ShiftUp(cells)) == cells
  {
    var s := ShiftUp(cells);
    var u := Unshift(cells[0], s);
    assert |u| == |cells|;
    forall i | 0 <= i < |cells|
      ensures u[i] == cells[i]
    {
      if i > 0 {
        assert u[i] == s[i - 1];
      }
    }
  }

  /** Row view of the shift: row `i` of the result takes its sentiment cells
      from row `i + 1` (missing past the end) and every other cell from row `i`. */
  function Merge(header: seq<string>, here: seq<Cell>, next: seq<Cell>): (row: seq<Cell>)
    requires |here| == |header| && |next| == |header|
  {
    seq(|header|, j requires 0 <= j < |header| => if IsSentiment(header[j]) then next[j] else here[j])
  }

  function NextRow(t: Table, i: nat): seq<Cell>
    requires WellFormed(t) && i < t.rowCount
  {
    if i + 1 < t.rowCount then Row(t, i + 1) else seq(|t.columns|, _ => Missing)
  }

  lemma ShiftRowView(t: Table, i: nat)
    requires WellFormed(t) && i < t.rowCount
    ensures WellFormed(ShiftSentiment(t))
    ensures Row(ShiftSentiment(t), i) == Merge(Header(t), Row(t, i), NextRow(t, i))
  {
    var s := ShiftSentiment(t);
    var m := Merge(Header(t), Row(t, i), NextRow(t, i));
    forall j | 0 <= j < |t.columns|
      ensures Row(s, i)[j] == m[j]
    {
      if IsSentiment(t.columns[j].name) && i + 1 == t.rowCount {
        assert s.columns[j].cells[|t.columns[j].cells| - 1] == Missing;
      }
    }
  }

  /** A name with no surrounding whitespace survives the header strip. */
  lemma StripPlain(name: string)
    requires Unpadded(name)
    ensures Strip(name) == name
  {
    StripUnique([], name, []);
    assert [] + name + [] == name;
  }

  /** A column spelled exactly as the script spells a sentiment name is
      found: none of the four names carries whitespace, so the header strip
      leaves it alone. */
  lemma ExactNameFound(t: Table, j: nat)
    requires j < |t.columns| && IsSentiment(t.columns[j].name)
    ensures HasColumn(t, t.columns[j].name)
  {
    var c := t.columns[j].name;
    assert Unpadded(c);
    StripPlain(c);
  }

  /** The worked example of a three-row column: values v1, v2, v3 become
      v2, v3 and missing. */
  lemma ShiftExample(v1: Cell, v2: Cell, v3: Cell)
    ensures ShiftUp([v1, v2, v3]) == [v2, v3, Missing]
  {
    assert [v1, v2, v3][1..] == [v2, v3];
  }
}
