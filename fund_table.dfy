/** The post-processing of the scraped return table (lines 74-92 of
    line_app.py): drop the first row, promote the next one to the header,
    drop it, renumber the rows from zero, fill empty cells with 0, and
    convert the eight return columns to numbers. */
module FundTable {
  import opened Outcomes
  import opened Funds

  /** The table as `pd.read_html` yields it: rows of cells, `None` for an empty cell. */
  type RawTable = seq<seq<Option<Cell>>>

  /** The table after post-processing: a header and the data rows. */
  datatype Table = Table(header: seq<Option<Cell>>, rows: seq<seq<Cell>>)

  /** `fillna(value=0)` on one cell. */
  function Fill(c: Option<Cell>): Cell {
    if c.None? then Number(0) else c.value
  }

  /** Lines 74-82. Sequences are always numbered from zero, so
      `reset_index` leaves nothing to do beyond taking the slice. */
  function Prepare(raw: RawTable): (r: Result<Table>)
    ensures r.Err? <==> |raw| < 2
    ensures r.Err? ==> r.error == HeaderRowsMissing
    ensures r.Ok? ==> r.value.header == raw[1] && |r.value.rows| == |raw| - 2
    ensures r.Ok? ==> forall i :: 0 <= i < |r.value.rows| ==> |r.value.rows[i]| == |raw[i + 2]|
    ensures r.Ok? ==> forall i, j :: 0 <= i < |r.value.rows| && 0 <= j < |raw[i + 2]| ==>
      r.value.rows[i][j] == (if raw[i + 2][j].None? then Number(0) else raw[i + 2][j].value)
  {
    if |raw| < 2 then Err(HeaderRowsMissing)
    else
      var data := raw[2..];
      Ok(Table(raw[1], seq(|data|, i requires 0 <= i < |data| =>
        seq(|data[i]|, j requires 0 <= j < |data[i]| => Fill(data[i][j])))))
  }

  /** A cell of a data row; past the end of a short row the cell is empty,
      as pandas pads short rows, and so reads as the filled-in 0. */
  function CellAt(row: seq<Cell>, j: nat): Cell {
    if j < |row| then row[j] else Number(0)
  }

  /** The first column whose heading is `name`. */
  function ColumnIndex(header: seq<Option<Cell>>, name: string, from: nat := 0): (r: Option<nat>)
    decreases |header| - from
    ensures r.Some? ==> from <= r.value < |header| && header[r.value] == Some(Text(name))
    ensures r.Some? ==> forall k :: from <= k < r.value ==> header[k] != Some(Text(name))
    ensures r.None? ==> forall k :: from <= k < |header| ==> header[k] != Some(Text(name))
  {
    if from >= |header| then None
    else if header[from] == Some(Text(name)) then Some(from)
    else ColumnIndex(header, name, from + 1)
  }

  /** `astype(float)` on one cell; how a text cell reads as a number is the
      parameter `parse` (None: not a number). */
  function ToNumber(c: Cell, parse: string -> Option<int>): Option<int> {
    match c
    case Number(n) => Some(n)
    case Text(s) => parse(s)
  }

  /** Column `j` of every row as numbers, or None at the first cell that is not one. */
  function Numbers(rows: seq<seq<Cell>>, j: nat, parse: string -> Option<int>): (r: Option<seq<int>>)
    ensures r.Some? <==> forall i :: 0 <= i < |rows| ==> ToNumber(CellAt(rows[i], j), parse).Some?
    ensures r.Some? ==> |r.value| == |rows|
    ensures r.Some? ==> forall i :: 0 <= i < |rows| ==> ToNumber(CellAt(rows[i], j), parse) == Some(r.value[i])
  {
    if rows == [] then Some([])
    else
      var x := ToNumber(CellAt(rows[0], j), parse);
      var rest := Numbers(rows[1..], j, parse);
      assert forall i :: 1 <= i < |rows| ==> rows[1..][i - 1] == rows[i];
      if x.None? || rest.None? then None else Some([x.value] + rest.value)
  }

  /** `df[name] = df[name].astype(float)` for one column heading. */
  function Column(t: Table, name: string, parse: string -> Option<int>): (r: Result<seq<int>>)
    ensures r.Err? ==> r.error == ColumnMissing(name) || r.error == NotNumeric(name)
    ensures r.Err? ==> (r.error == ColumnMissing(name) <==> ColumnIndex(t.header, name).None?)
    ensures r.Ok? ==> |r.value| == |t.rows|
    ensures r.Ok? <==> (ColumnIndex(t.header, name).Some? &&
                        Numbers(t.rows, ColumnIndex(t.header, name).value, parse).Some?)
    ensures r.Ok? ==> forall i :: 0 <= i < |t.rows| ==>
      ToNumber(CellAt(t.rows[i], ColumnIndex(t.header, name).value), parse) == Some(r.value[i])
  {
    var j := ColumnIndex(t.header, name);
    if j.None? then Err(ColumnMissing(name))
    else
      var v := Numbers(t.rows, j.value, parse);
      if v.None? then Err(NotNumeric(name)) else Ok(v.value)
  }

  /** The horizons in the order lines 85-92 convert their columns. */
  const Conversions: seq<Horizon> :=
    [OneMonth, ThreeMonths, SixMonths, OneYear, TwoYears, ThreeYears, FiveYears, YearToDate]

  /** Where `h` stands in `Conversions`. */
  function ConversionIndex(h: Horizon): (k: nat)
    ensures k < |Conversions| && Conversions[k] == h
  {
    match h
    case OneMonth => 0 case ThreeMonths => 1 case SixMonths => 2 case OneYear => 3
    case TwoYears => 4 case ThreeYears => 5 case FiveYears => 6 case YearToDate => 7
  }

  /** The columns for `hs`, converted one after the other; the first one
      that fails decides the error. */
  function Columns(t: Table, hs: seq<Horizon>, parse: string -> Option<int>): (r: Result<seq<seq<int>>>)
    ensures r.Ok? <==> forall k :: 0 <= k < |hs| ==> Column(t, HorizonName(hs[k]), parse).Ok?
    ensures r.Ok? ==> |r.value| == |hs|
    ensures r.Ok? ==> forall k :: 0 <= k < |hs| ==> r.value[k] == Column(t, HorizonName(hs[k]), parse).value
    ensures r.Err? ==> exists k :: 0 <= k < |hs| && Column(t, HorizonName(hs[k]), parse).Err? &&
                                   r.error == Column(t, HorizonName(hs[k]), parse).error &&
                                   forall k' :: 0 <= k' < k ==> Column(t, HorizonName(hs[k']), parse).Ok?
  {
    if hs == [] then Ok([])
    else
      var c := Column(t, HorizonName(hs[0]), parse);
      if c.Err? then Err(c.error)
      else
        var rest := Columns(t, hs[1..], parse);
        assert forall k :: 1 <= k < |hs| ==> hs[1..][k - 1] == hs[k];
        if rest.Err? then
          var k :| 0 <= k < |hs[1..]| && Column(t, HorizonName(hs[1..][k]), parse).Err? &&
                   rest.error == Column(t, HorizonName(hs[1..][k]), parse).error &&
                   forall k' :: 0 <= k' < k ==> Column(t, HorizonName(hs[1..][k']), parse).Ok?;
          assert forall k' :: 0 <= k' < k + 1 ==> Column(t, HorizonName(hs[k']), parse).Ok? by {
            forall k' | 0 <= k' < k + 1 ensures Column(t, HorizonName(hs[k']), parse).Ok? {
              if k' > 0 {
                assert hs[k'] == hs[1..][k' - 1];
              }
            }
          }
          Err(rest.error)
        else Ok([c.value] + rest.value)
  }

  /** All eight conversions succeed exactly when every horizon's column does. */
  lemma ConversionsCoverAll(t: Table, parse: string -> Option<int>)
    ensures Columns(t, Conversions, parse).Ok? <==> forall h :: Column(t, HorizonName(h), parse).Ok?
  {
    if Columns(t, Conversions, parse).Ok? {
      forall h ensures Column(t, HorizonName(h), parse).Ok? {
        assert Conversions[ConversionIndex(h)] == h;
      }
    }
  }

  /** Lines 85-92: the table's rows with their eight return columns as numbers. */
  function Decode(t: Table, parse: string -> Option<int>): (r: Result<seq<FundRow>>)
    ensures r.Ok? <==> forall h :: Column(t, HorizonName(h), parse).Ok?
    ensures r.Err? ==> exists h :: r.error == ColumnMissing(HorizonName(h)) || r.error == NotNumeric(HorizonName(h))
    ensures r.Ok? ==> |r.value| == |t.rows|
    ensures r.Ok? ==> forall i :: 0 <= i < |t.rows| ==> r.value[i].cells == t.rows[i]
  {
    var cols := Columns(t, Conversions, parse);
    ConversionsCoverAll(t, parse);
    if cols.Err? then Err(cols.error)
    else
      var c := cols.value;
      assert forall k :: 0 <= k < 8 ==> |c[k]| == |t.rows|;
      Ok(seq(|t.rows|, i requires 0 <= i < |t.rows| =>
        FundRow(t.rows[i], c[0][i], c[1][i], c[2][i], c[3][i], c[4][i], c[5][i], c[6][i], c[7][i])))
  }

  /** Each return of a decoded row is its cell in the column headed by that
      horizon's name, read as a number. */
  lemma DecodedReturn(t: Table, parse: string -> Option<int>, i: nat, h: Horizon)
    requires Decode(t, parse).Ok? && i < |t.rows|
    ensures ColumnIndex(t.header, HorizonName(h)).Some?
    ensures ToNumber(CellAt(t.rows[i], ColumnIndex(t.header, HorizonName(h)).value), parse)
            == Some(Return(Decode(t, parse).value[i], h))
  {
    var cols := Columns(t, Conversions, parse);
    var k := ConversionIndex(h);
    assert Column(t, HorizonName(h), parse).Ok?;
    assert Return(Decode(t, parse).value[i], h) == cols.value[k][i];
  }

  /** An empty cell of a return column ranks as exactly 0. */
  lemma EmptyCellRanksAsZero(raw: RawTable, parse: string -> Option<int>, i: nat, h: Horizon)
    requires i + 2 < |raw|
    requires ColumnIndex(raw[1], HorizonName(h)).Some?
    requires var j := ColumnIndex(raw[1], HorizonName(h)).value; j >= |raw[i + 2]| || raw[i + 2][j].None?
    ensures Prepare(raw).Ok?
    ensures Decode(Prepare(raw).value, parse).Ok? ==>
              Return(Decode(Prepare(raw).value, parse).value[i], h) == 0
  {
    if Decode(Prepare(raw).value, parse).Ok? {
      DecodedReturn(Prepare(raw).value, parse, i, h);
    }
  }
}
