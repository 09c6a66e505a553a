/**
 * The table the script cleans, as a value: its column names and its rows,
 * each row holding one cell per column. Every cleaning step of airbnb.py
 * (lines 42-127 and 264-266) is a function from one table to the next; a
 * step that can raise returns `None`. The `Table` class in module Pipeline
 * performs the same steps in place and is proved against these functions.
 *
 * pandas lets two columns share a name. Writing `df[name] = ...` then
 * writes every column of that name; reading `df[name]` to derive a new
 * column reads the first of them here.
 */
module Frames {
  import opened Wrappers
  import opened Cells
  import Headers
  import Columns
  import Dedup

  const PRICE := "price"
  const SERVICE_FEE := "service_fee"
  const NUMERIC_COLUMNS: seq<string> :=
    ["review_rate_number", "number_of_reviews", "reviews_per_month", "construction_year", "availability_365"]
  const AVAILABILITY := "availability_365"
  const DAYS_BOOKED := "days_booked"
  const SUPERHOST_FLAG := "host_is_superhost"
  const VERIFIED_FLAG := "host_identity_verified"
  const HOST_LABEL := "is_superhost"

  datatype Frame = Frame(columns: seq<string>, rows: seq<seq<Cell>>)

  /** Every row has one cell per column. */
  predicate WellFormed(f: Frame) {
    forall i :: 0 <= i < |f.rows| ==> |f.rows[i]| == |f.columns|
  }

  // -------------------------------------------------------- column access

  /** `df[name]` read for a derived column: the cells of the first column called `name`. */
  function Column(f: Frame, name: string): (r: seq<Cell>)
    requires WellFormed(f) && name in f.columns
    ensures |r| == |f.rows|
    ensures forall i :: 0 <= i < |f.rows| ==> r[i] == f.rows[i][Dedup.FirstIndex(f.columns, name)]
  {
    var k := Dedup.FirstIndex(f.columns, name);
    seq(|f.rows|, i requires 0 <= i < |f.rows| => f.rows[i][k])
  }

  /**
   * `df[name] = values`: every column called `name` takes the new cells; a
   * new name becomes a new last column.
   */
  function SetColumn(f: Frame, name: string, values: seq<Cell>): (r: Frame)
    requires WellFormed(f) && |values| == |f.rows|
    ensures WellFormed(r) && |r.rows| == |f.rows|
    ensures r.columns == if name in f.columns then f.columns else f.columns + [name]
  {
    if name in f.columns then
      Frame(f.columns, seq(|f.rows|, i requires 0 <= i < |f.rows| =>
        seq(|f.columns|, j requires 0 <= j < |f.columns| => if f.columns[j] == name then values[i] else f.rows[i][j])))
    else
      Frame(f.columns + [name], seq(|f.rows|, i requires 0 <= i < |f.rows| => f.rows[i] + [values[i]]))
  }

  /** `df[name] = g(df[name])` for a per-cell `g` that cannot fail. */
  function MapColumn(f: Frame, name: string, g: Cell -> Cell): (r: Frame)
    requires WellFormed(f)
    ensures r.columns == f.columns && |r.rows| == |f.rows| && WellFormed(r)
    ensures forall i, j :: 0 <= i < |f.rows| && 0 <= j < |f.columns| ==>
      r.rows[i][j] == if f.columns[j] == name then g(f.rows[i][j]) else f.rows[i][j]
  {
    Frame(f.columns, seq(|f.rows|, i requires 0 <= i < |f.rows| =>
      seq(|f.columns|, j requires 0 <= j < |f.columns| => if f.columns[j] == name then g(f.rows[i][j]) else f.rows[i][j])))
  }

  /** `g` accepts every cell of every column called `name`. */
  predicate AllSucceed(f: Frame, name: string, g: Cell -> Option<Cell>)
    requires WellFormed(f)
  {
    forall i, j :: 0 <= i < |f.rows| && 0 <= j < |f.columns| && f.columns[j] == name ==> g(f.rows[i][j]).Some?
  }

  /** The cell `g` makes, or the cell itself where `g` fails. */
  function OrKeep(g: Cell -> Option<Cell>): Cell -> Cell {
    c => match g(c) case Some(d) => d case None => c
  }

  /** `df[name] = g(df[name])` for a per-cell `g` that can raise: one failing cell fails the whole assignment. */
  function TryMapColumn(f: Frame, name: string, g: Cell -> Option<Cell>): (r: Option<Frame>)
    requires WellFormed(f)
    ensures r.Some? <==> AllSucceed(f, name, g)
    ensures r.Some? ==> r.value.columns == f.columns && |r.value.rows| == |f.rows| && WellFormed(r.value)
    ensures r.Some? ==> forall i, j :: 0 <= i < |f.rows| && 0 <= j < |f.columns| ==>
      if f.columns[j] == name then g(f.rows[i][j]) == Some(r.value.rows[i][j]) else r.value.rows[i][j] == f.rows[i][j]
  {
    if AllSucceed(f, name, g) then Some(MapColumn(f, name, OrKeep(g))) else None
  }

  // ---------------------------------------------------------- the steps

  /** Lines 42-48: the rows do not move. */
  function NormalizeHeaders(f: Frame): (r: Frame)
    requires WellFormed(f)
    ensures WellFormed(r) && r.rows == f.rows
  {
    Frame(Headers.NormalizeHeaders(f.columns), f.rows)
  }

  /** Lines 57-59: the header and every row lose the same positions. */
  function DropUnneededColumns(f: Frame): (r: Frame)
    requires WellFormed(f)
    ensures WellFormed(r) && |r.rows| == |f.rows|
  {
    var pruned := Frame(Columns.PrunedColumns(f.columns),
      seq(|f.rows|, i requires 0 <= i < |f.rows| => Columns.PrunedRow(f.columns, f.rows[i])));
    assert forall i :: 0 <= i < |f.rows| ==> |pruned.rows[i]| == |pruned.columns| by {
      forall i | 0 <= i < |f.rows| ensures |pruned.rows[i]| == |pruned.columns| {
        Columns.KeepWidth(f.columns, Columns.PresentDrops(f.columns), f.rows[i], f.columns);
      }
    }
    pruned
  }

  /** Line 76. */
  function DropDuplicateRows(f: Frame): (r: Frame)
    requires WellFormed(f)
    ensures WellFormed(r) && r.columns == f.columns && |r.rows| <= |f.rows|
  {
    Frame(f.columns, Dedup.DropDuplicates(f.rows))
  }

  /** `df[name] = clean_currency_column(name)`, done only when the column exists, as at lines 93-97. */
  function CleanCurrencyColumn(f: Frame, name: string): (r: Option<Frame>)
    requires WellFormed(f)
    ensures r.Some? ==> r.value.columns == f.columns && |r.value.rows| == |f.rows| && WellFormed(r.value)
  {
    if name in f.columns then TryMapColumn(f, name, CleanCurrencyCell) else Some(f)
  }

  /** Lines 93-97: `price` first, then `service_fee`. */
  function CleanCurrency(f: Frame): (r: Option<Frame>)
    requires WellFormed(f)
    ensures r.Some? ==> r.value.columns == f.columns && |r.value.rows| == |f.rows| && WellFormed(r.value)
  {
    match CleanCurrencyColumn(f, PRICE)
    case None => None
    case Some(g) => CleanCurrencyColumn(g, SERVICE_FEE)
  }

  /** One pass of the loop at lines 108-110. */
  function CoerceColumn(f: Frame, name: string): (r: Frame)
    requires WellFormed(f)
    ensures WellFormed(r) && r.columns == f.columns && |r.rows| == |f.rows|
  {
    if name in f.columns then MapColumn(f, name, CoerceCell) else f
  }

  /** The loop at lines 108-110 run over `names`. */
  function CoerceFor(f: Frame, names: seq<string>): (r: Frame)
    requires WellFormed(f)
    ensures WellFormed(r) && r.columns == f.columns && |r.rows| == |f.rows|
    decreases |names|
  {
    if names == [] then f else CoerceColumn(CoerceFor(f, names[..|names| - 1]), names[|names| - 1])
  }

  function CoerceNumeric(f: Frame): (r: Frame)
    requires WellFormed(f)
    ensures WellFormed(r) && r.columns == f.columns && |r.rows| == |f.rows|
  {
    CoerceFor(f, NUMERIC_COLUMNS)
  }

  /** `365 - column`: fails when any cell is a string. */
  function DaysBookedValues(col: seq<Cell>): (r: Option<seq<Cell>>)
    ensures r.Some? <==> forall i :: 0 <= i < |col| ==> !col[i].Text?
    ensures r.Some? ==> |r.value| == |col| && forall i :: 0 <= i < |col| ==> DaysBookedCell(col[i]) == Some(r.value[i])
  {
    if col == [] then Some([])
    else
      match (DaysBookedCell(col[0]), DaysBookedValues(col[1..]))
      case (Some(d), Some(ds)) => Some([d] + ds)
      case _ => None
  }

  /** Lines 120-121. */
  function AddDaysBooked(f: Frame): (r: Option<Frame>)
    requires WellFormed(f)
    ensures r.Some? ==> WellFormed(r.value) && |r.value.rows| == |f.rows|
    ensures r.Some? ==>
      r.value.columns == if AVAILABILITY in f.columns && DAYS_BOOKED !in f.columns then f.columns + [DAYS_BOOKED] else f.columns
  {
    if AVAILABILITY !in f.columns then Some(f)
    else
      match DaysBookedValues(Column(f, AVAILABILITY))
      case None => None
      case Some(days) => Some(SetColumn(f, DAYS_BOOKED, days))
  }

  /** `df["is_superhost"] = df[source].apply(labelOf)`. */
  function LabelColumn(f: Frame, source: string, labelOf: Cell -> Cell): (r: Frame)
    requires WellFormed(f) && source in f.columns
    ensures WellFormed(r) && |r.rows| == |f.rows|
    ensures r.columns == if HOST_LABEL in f.columns then f.columns else f.columns + [HOST_LABEL]
  {
    var col := Column(f, source);
    SetColumn(f, HOST_LABEL, seq(|f.rows|, i requires 0 <= i < |f.rows| => labelOf(col[i])))
  }

  /** Lines 124-127. */
  function LabelSuperhosts(f: Frame): (r: Frame)
    requires WellFormed(f)
    ensures WellFormed(r) && |r.rows| == |f.rows|
    ensures r.columns == if SUPERHOST_FLAG in f.columns && HOST_LABEL !in f.columns then f.columns + [HOST_LABEL] else f.columns
  {
    if SUPERHOST_FLAG in f.columns then LabelColumn(f, SUPERHOST_FLAG, SuperhostLabel) else f
  }

  /** Lines 264-266: not guarded, so a missing column is a `KeyError`. */
  function LabelVerifiedHosts(f: Frame): (r: Option<Frame>)
    requires WellFormed(f)
    ensures r.Some? ==> WellFormed(r.value) && |r.value.rows| == |f.rows|
    ensures r.Some? ==> r.value.columns == if HOST_LABEL in f.columns then f.columns else f.columns + [HOST_LABEL]
  {
    if VERIFIED_FLAG in f.columns then Some(LabelColumn(f, VERIFIED_FLAG, VerifiedLabel)) else None
  }

  /** The table after the steps that cannot fail: lines 42-76. */
  function Prepare(f: Frame): (r: Frame)
    requires WellFormed(f)
    ensures WellFormed(r) && |r.rows| <= |f.rows|
  {
    DropDuplicateRows(DropUnneededColumns(NormalizeHeaders(f)))
  }

  /** The steps after the currency cleaning: lines 100-127 and 264-266. */
  function Finish(p: Frame): (r: Option<Frame>)
    requires WellFormed(p)
    ensures r.Some? ==> WellFormed(r.value) && |r.value.rows| == |p.rows|
  {
    match AddDaysBooked(CoerceNumeric(p))
    case None => None
    case Some(booked) => LabelVerifiedHosts(LabelSuperhosts(booked))
  }

  /** The whole cleaning run, lines 42-127 and 264-266; `None` when it raises. */
  function Clean(f: Frame): (r: Option<Frame>)
    requires WellFormed(f)
    ensures r.Some? ==> WellFormed(r.value) && |r.value.rows| <= |f.rows|
  {
    match CleanCurrency(Prepare(f))
    case None => None
    case Some(priced) => Finish(priced)
  }

  /**
   * The table as it stands when the statement that raises begins, for a run
   * that fails: the script's `df` keeps every assignment made before it.
   */
  function Interrupted(f: Frame): (r: Frame)
    requires WellFormed(f)
    ensures WellFormed(r) && |r.rows| <= |f.rows|
  {
    var p := Prepare(f);
    match CleanCurrencyColumn(p, PRICE)
    case None => p
    case Some(priced) =>
      (match CleanCurrencyColumn(priced, SERVICE_FEE)
       case None => priced
       case Some(fees) =>
         var coerced := CoerceNumeric(fees);
         (match AddDaysBooked(coerced)
          case None => coerced
          case Some(booked) => LabelSuperhosts(booked)))
  }

  // ------------------------------------------------------ writing columns

  /** Reading a column back gives what was written. */
  lemma SetColumnReadBack(f: Frame, name: string, values: seq<Cell>)
    requires WellFormed(f) && |values| == |f.rows|
    ensures name in SetColumn(f, name, values).columns
    ensures Column(SetColumn(f, name, values), name) == values
  {
    var r := SetColumn(f, name, values);
    if name !in f.columns {
      assert r.columns[|f.columns|] == name;
      assert Dedup.FirstIndex(r.columns, name) == |f.columns|;
    }
  }

  /** Writing one column leaves every column of another name as it was. */
  lemma SetColumnKeepsOthers(f: Frame, name: string, values: seq<Cell>, other: string)
    requires WellFormed(f) && |values| == |f.rows|
    requires other != name && other in f.columns
    ensures other in SetColumn(f, name, values).columns
    ensures Column(SetColumn(f, name, values), other) == Column(f, other)
  {
    var r := SetColumn(f, name, values);
    if name !in f.columns {
      Dedup.FirstIndexAppend(f.columns, name, other);
    }
  }

  /** A second write to the same name replaces the first one entirely. */
  lemma SetColumnTwice(f: Frame, name: string, first: seq<Cell>, second: seq<Cell>)
    requires WellFormed(f) && |first| == |f.rows| && |second| == |f.rows|
    ensures SetColumn(SetColumn(f, name, first), name, second) == SetColumn(f, name, second)
  {
    var once := SetColumn(f, name, first);
    var twice := SetColumn(once, name, second);
    var direct := SetColumn(f, name, second);
    assert twice.columns == direct.columns;
    forall i | 0 <= i < |f.rows| ensures twice.rows[i] == direct.rows[i] {
      if name !in f.columns {
        assert |twice.rows[i]| == |direct.rows[i]| == |f.columns| + 1;
        forall j | 0 <= j < |f.columns| + 1 ensures twice.rows[i][j] == direct.rows[i][j] {
          if j < |f.columns| {
            assert f.columns[j] != name;
          }
        }
      }
    }
  }

  // ----------------------------------------------------- numeric coercion

  /**
   * After the loop over `names`, a cell in a listed column has been coerced
   * once (coercing again changes nothing), and every other cell is as it was.
   */
  lemma {:induction false} CoerceForCells(f: Frame, names: seq<string>)
    requires WellFormed(f)
    ensures forall i, j :: 0 <= i < |f.rows| && 0 <= j < |f.columns| ==>
      CoerceFor(f, names).rows[i][j] == if f.columns[j] in names then CoerceCell(f.rows[i][j]) else f.rows[i][j]
    decreases |names|
  {
    if names != [] {
      var init, last := names[..|names| - 1], names[|names| - 1];
      assert names == init + [last];
      CoerceForCells(f, init);
      var before := CoerceFor(f, init);
      forall i, j | 0 <= i < |f.rows| && 0 <= j < |f.columns|
        ensures CoerceFor(f, names).rows[i][j] == if f.columns[j] in names then CoerceCell(f.rows[i][j]) else f.rows[i][j]
      {
        CoerceIdempotent(f.rows[i][j]);
        assert f.columns[j] in names <==> f.columns[j] in init || f.columns[j] == last;
      }
    }
  }

  /**
   * `pd.to_numeric(errors="coerce")` over the listed columns never fails: in
   * those columns a string that parses becomes its number and any other
   * string becomes missing; no other cell changes.
   */
  lemma NumericCoercion(f: Frame)
    requires WellFormed(f)
    ensures forall i, j :: 0 <= i < |f.rows| && 0 <= j < |f.columns| && f.columns[j] in NUMERIC_COLUMNS ==>
      && !CoerceNumeric(f).rows[i][j].Text?
      && (f.rows[i][j].Text? ==>
            CoerceNumeric(f).rows[i][j] == match FloatValue(f.rows[i][j].s) case Some(v) => Number(v) case None => Missing)
      && (!f.rows[i][j].Text? ==> CoerceNumeric(f).rows[i][j] == f.rows[i][j])
    ensures forall i, j :: 0 <= i < |f.rows| && 0 <= j < |f.columns| && f.columns[j] !in NUMERIC_COLUMNS ==>
      CoerceNumeric(f).rows[i][j] == f.rows[i][j]
  {
    CoerceForCells(f, NUMERIC_COLUMNS);
  }

  /** Coercing the listed columns twice is coercing them once. */
  lemma NumericCoercionIdempotent(f: Frame)
    requires WellFormed(f)
    ensures CoerceNumeric(CoerceNumeric(f)) == CoerceNumeric(f)
  {
    var once := CoerceNumeric(f);
    var twice := CoerceNumeric(once);
    CoerceForCells(f, NUMERIC_COLUMNS);
    CoerceForCells(once, NUMERIC_COLUMNS);
    forall i | 0 <= i < |f.rows| ensures twice.rows[i] == once.rows[i] {
      forall j | 0 <= j < |f.columns| ensures twice.rows[i][j] == once.rows[i][j] {
        CoerceIdempotent(f.rows[i][j]);
        if f.columns[j] in NUMERIC_COLUMNS {
          assert once.rows[i][j] == CoerceCell(f.rows[i][j]);
          assert twice.rows[i][j] == CoerceCell(once.rows[i][j]);
        }
      }
    }
  }

  // ---------------------------------------------------------- days_booked

  /**
   * The new column is `365 - a` row by row: a number gives the booked
   * days, inside [0, 365] when `a` is, and a missing value stays missing.
   * The step fails exactly when some `availability_365` cell is a string,
   * and without that column the table is left alone.
   */
  lemma DaysBooked(f: Frame)
    requires WellFormed(f)
    ensures AVAILABILITY !in f.columns ==> AddDaysBooked(f) == Some(f)
    ensures AVAILABILITY in f.columns ==>
      (AddDaysBooked(f).None? <==> exists i :: 0 <= i < |f.rows| && Column(f, AVAILABILITY)[i].Text?)
    ensures AVAILABILITY in f.columns && AddDaysBooked(f).Some? ==>
      && DAYS_BOOKED in AddDaysBooked(f).value.columns
      && forall i :: 0 <= i < |f.rows| ==>
        var a, d := Column(f, AVAILABILITY)[i], Column(AddDaysBooked(f).value, DAYS_BOOKED)[i];
        && (a.Missing? ==> d == Missing)
        && (a.Number? ==> d.Number? && d.v == DAYS_IN_YEAR - a.v)
        && (a.Number? && 0.0 <= a.v <= DAYS_IN_YEAR ==> 0.0 <= d.v <= DAYS_IN_YEAR)
  {
    if AVAILABILITY in f.columns {
      var col := Column(f, AVAILABILITY);
      var days := DaysBookedValues(col);
      if days.Some? {
        SetColumnReadBack(f, DAYS_BOOKED, days.value);
      }
    }
  }

  /** After the numeric coercion, computing `days_booked` cannot fail. */
  lemma DaysBookedAfterCoercion(f: Frame)
    requires WellFormed(f)
    ensures AddDaysBooked(CoerceNumeric(f)).Some?
  {
    var c := CoerceNumeric(f);
    NumericCoercion(f);
    if AVAILABILITY in c.columns {
      var k := Dedup.FirstIndex(c.columns, AVAILABILITY);
      assert c.columns[k] in NUMERIC_COLUMNS;
      assert forall i :: 0 <= i < |c.rows| ==> !Column(c, AVAILABILITY)[i].Text?;
    }
  }

  // -------------------------------------------------------------- currency

  /**
   * Cleaning a currency column fails exactly when the column exists and one
   * of its strings does not parse once `$` and `,` are gone. On success
   * every such string has become its number, numbers and missing values
   * are kept, and no other column changes.
   */
  lemma CurrencyColumn(f: Frame, name: string)
    requires WellFormed(f)
    ensures CleanCurrencyColumn(f, name).None? <==>
      exists i, j :: 0 <= i < |f.rows| && 0 <= j < |f.columns| && f.columns[j] == name
        && f.rows[i][j].Text? && CurrencyValue(f.rows[i][j].s).None?
    ensures CleanCurrencyColumn(f, name).Some? ==>
      forall i, j :: 0 <= i < |f.rows| && 0 <= j < |f.columns| ==>
        var before, after := f.rows[i][j], CleanCurrencyColumn(f, name).value.rows[i][j];
        if f.columns[j] == name then
          && !after.Text?
          && (before.Text? ==> after == Number(CurrencyValue(before.s).value))
          && (!before.Text? ==> after == before)
        else after == before
  {
    if name in f.columns && !AllSucceed(f, name, CleanCurrencyCell) {
      var i, j :| 0 <= i < |f.rows| && 0 <= j < |f.columns| && f.columns[j] == name
        && CleanCurrencyCell(f.rows[i][j]).None?;
    }
  }

  /** A cleaned currency column cleans again to itself. */
  lemma CurrencyColumnIdempotent(f: Frame, name: string, g: Frame)
    requires WellFormed(f) && CleanCurrencyColumn(f, name) == Some(g)
    ensures CleanCurrencyColumn(g, name) == Some(g)
  {
    CurrencyColumn(f, name);
    if name in g.columns {
      assert AllSucceed(g, name, CleanCurrencyCell);
      var h := MapColumn(g, name, OrKeep(CleanCurrencyCell));
      forall i | 0 <= i < |g.rows| ensures h.rows[i] == g.rows[i] {
        assert |h.rows[i]| == |g.rows[i]|;
      }
      assert h == g;
    }
  }

  // ---------------------------------------------------------------- labels

  /** The label column holds, row by row, the label of the source cell. */
  lemma LabelColumnCells(f: Frame, source: string, labelOf: Cell -> Cell)
    requires WellFormed(f) && source in f.columns
    ensures HOST_LABEL in LabelColumn(f, source, labelOf).columns
    ensures forall i :: 0 <= i < |f.rows| ==>
      Column(LabelColumn(f, source, labelOf), HOST_LABEL)[i] == labelOf(Column(f, source)[i])
  {
    var col := Column(f, source);
    SetColumnReadBack(f, HOST_LABEL, seq(|f.rows|, i requires 0 <= i < |f.rows| => labelOf(col[i])));
  }

  /**
   * Lines 124-127: with a `host_is_superhost` column, `is_superhost` is
   * `Superhost` exactly for the rows whose flag reads `t`, and `Regular
   * Host` for all others; without it the table is left alone.
   */
  lemma SuperhostLabels(f: Frame)
    requires WellFormed(f)
    ensures SUPERHOST_FLAG !in f.columns ==> LabelSuperhosts(f) == f
    ensures SUPERHOST_FLAG in f.columns ==>
      && HOST_LABEL in LabelSuperhosts(f).columns
      && forall i :: 0 <= i < |f.rows| ==>
        var l := Column(LabelSuperhosts(f), HOST_LABEL)[i];
        && (l == Text("Superhost") || l == Text("Regular Host"))
        && (l == Text("Superhost") <==> IsTrueFlag(Column(f, SUPERHOST_FLAG)[i]))
  {
    if SUPERHOST_FLAG in f.columns {
      LabelColumnCells(f, SUPERHOST_FLAG, SuperhostLabel);
    }
  }

  /**
   * Lines 264-266: the step fails exactly when `host_identity_verified` is
   * absent; otherwise `is_superhost` is `Verified Host` exactly for the
   * rows whose flag reads `t`, and `Non-Verified Host` for all others.
   */
  lemma VerifiedLabels(f: Frame)
    requires WellFormed(f)
    ensures LabelVerifiedHosts(f).None? <==> VERIFIED_FLAG !in f.columns
    ensures LabelVerifiedHosts(f).Some? ==>
      && HOST_LABEL in LabelVerifiedHosts(f).value.columns
      && forall i :: 0 <= i < |f.rows| ==>
        var l := Column(LabelVerifiedHosts(f).value, HOST_LABEL)[i];
        && (l == Text("Verified Host") || l == Text("Non-Verified Host"))
        && (l == Text("Verified Host") <==> IsTrueFlag(Column(f, VERIFIED_FLAG)[i]))
  {
    if VERIFIED_FLAG in f.columns {
      LabelColumnCells(f, VERIFIED_FLAG, VerifiedLabel);
    }
  }

  /** The second labelling overwrites the first one completely: running the first one makes no difference. */
  lemma LabelsOverwritten(f: Frame)
    requires WellFormed(f)
    ensures LabelVerifiedHosts(LabelSuperhosts(f)) == LabelVerifiedHosts(f)
  {
    if SUPERHOST_FLAG in f.columns {
      var s := LabelSuperhosts(f);
      var first := seq(|f.rows|, i requires 0 <= i < |f.rows| => SuperhostLabel(Column(f, SUPERHOST_FLAG)[i]));
      assert s == SetColumn(f, HOST_LABEL, first);
      assert VERIFIED_FLAG in s.columns <==> VERIFIED_FLAG in f.columns;
      if VERIFIED_FLAG in f.columns {
        SetColumnKeepsOthers(f, HOST_LABEL, first, VERIFIED_FLAG);
        var second := seq(|f.rows|, i requires 0 <= i < |f.rows| => VerifiedLabel(Column(f, VERIFIED_FLAG)[i]));
        assert LabelColumn(s, VERIFIED_FLAG, VerifiedLabel) == SetColumn(s, HOST_LABEL, second);
        assert LabelColumn(f, VERIFIED_FLAG, VerifiedLabel) == SetColumn(f, HOST_LABEL, second);
        SetColumnTwice(f, HOST_LABEL, first, second);
        assert LabelVerifiedHosts(s) == Some(SetColumn(s, HOST_LABEL, second));
      }
    }
  }

  // -------------------------------------------------------- the whole run

  /** No cell of a column called `name` is a string. */
  predicate NoText(f: Frame, name: string)
    requires WellFormed(f)
  {
    forall i, j :: 0 <= i < |f.rows| && 0 <= j < |f.columns| && f.columns[j] == name ==> !f.rows[i][j].Text?
  }

  /** Writing one column keeps every other column free of strings, and the written one too when the new cells are not strings. */
  lemma SetColumnNoText(f: Frame, name: string, values: seq<Cell>, other: string)
    requires WellFormed(f) && |values| == |f.rows|
    requires if other == name then forall i :: 0 <= i < |values| ==> !values[i].Text? else NoText(f, other)
    ensures NoText(SetColumn(f, name, values), other)
  {
    var r := SetColumn(f, name, values);
    forall i, j | 0 <= i < |r.rows| && 0 <= j < |r.columns| && r.columns[j] == other ensures !r.rows[i][j].Text? {
      if j < |f.columns| {
        assert r.rows[i][j] == if f.columns[j] == name then values[i] else f.rows[i][j];
      } else {
        assert r.rows[i] == f.rows[i] + [values[i]];
      }
    }
  }

  /** The currency step leaves no string in `price` or `service_fee`. */
  lemma CurrencyNoText(f: Frame)
    requires WellFormed(f) && CleanCurrency(f).Some?
    ensures NoText(CleanCurrency(f).value, PRICE) && NoText(CleanCurrency(f).value, SERVICE_FEE)
  {
    CurrencyColumn(f, PRICE);
    var g := CleanCurrencyColumn(f, PRICE).value;
    CurrencyColumn(g, SERVICE_FEE);
  }

  /** The coercion keeps a column free of strings, and makes the listed ones so. */
  lemma CoercionNoText(f: Frame, name: string)
    requires WellFormed(f)
    requires name in NUMERIC_COLUMNS || NoText(f, name)
    ensures NoText(CoerceNumeric(f), name)
  {
    NumericCoercion(f);
  }

  /** Adding `days_booked` keeps every other column as free of strings as it was. */
  lemma DaysBookedNoText(f: Frame, name: string)
    requires WellFormed(f) && AddDaysBooked(f).Some?
    requires if name == DAYS_BOOKED then AVAILABILITY in f.columns else NoText(f, name)
    ensures NoText(AddDaysBooked(f).value, name)
  {
    if AVAILABILITY in f.columns {
      var days := DaysBookedValues(Column(f, AVAILABILITY)).value;
      assert forall i :: 0 <= i < |days| ==> !days[i].Text?;
      SetColumnNoText(f, DAYS_BOOKED, days, name);
    }
  }

  /** The labelling keeps every other column as free of strings as it was. */
  lemma LabelsNoText(f: Frame, name: string)
    requires WellFormed(f) && name != HOST_LABEL && NoText(f, name) && LabelVerifiedHosts(LabelSuperhosts(f)).Some?
    ensures NoText(LabelVerifiedHosts(LabelSuperhosts(f)).value, name)
  {
    LabelsOverwritten(f);
    var col := Column(f, VERIFIED_FLAG);
    SetColumnNoText(f, HOST_LABEL, seq(|f.rows|, i requires 0 <= i < |f.rows| => VerifiedLabel(col[i])), name);
  }

  /** The columns the script names as holding numbers. */
  predicate NumericResult(name: string) {
    name in NUMERIC_COLUMNS || name == PRICE || name == SERVICE_FEE
  }

  /** A successful run is a successful currency cleaning followed by a successful finish. */
  lemma CleanStages(f: Frame, g: Frame)
    requires WellFormed(f) && Clean(f) == Some(g)
    ensures CleanCurrency(Prepare(f)).Some? && Finish(CleanCurrency(Prepare(f)).value) == Some(g)
  {
  }

  /** The pruned, de-duplicated table keeps the normalised names that are not dropped. */
  lemma PrepareColumns(f: Frame)
    requires WellFormed(f)
    ensures forall n :: n in Prepare(f).columns <==>
      n in Headers.NormalizeHeaders(f.columns) && n !in Columns.COLUMNS_TO_DROP
  {
    var names := Headers.NormalizeHeaders(f.columns);
    assert Prepare(f).columns == Columns.PrunedColumns(names);
    Columns.PrunedColumnsMembers(names);
  }

  /** `availability_365` is not one of the dropped columns. */
  lemma AvailabilityKept(f: Frame)
    requires WellFormed(f)
    ensures AVAILABILITY in Prepare(f).columns <==> AVAILABILITY in Headers.NormalizeHeaders(f.columns)
  {
    assert AVAILABILITY !in Columns.COLUMNS_TO_DROP;
    PrepareColumns(f);
  }

  /** The steps after the currency cleaning fail exactly when `host_identity_verified` is absent. */
  lemma FinishFailure(p: Frame)
    requires WellFormed(p)
    ensures Finish(p).None? <==> VERIFIED_FLAG !in p.columns
  {
    DaysBookedAfterCoercion(p);
    var b := AddDaysBooked(CoerceNumeric(p)).value;
    assert VERIFIED_FLAG in b.columns <==> VERIFIED_FLAG in p.columns;
    assert VERIFIED_FLAG in LabelSuperhosts(b).columns <==> VERIFIED_FLAG in p.columns;
  }

  /**
   * The run fails exactly when a currency string does not parse or the
   * table has no `host_identity_verified` column; computing `days_booked`
   * never fails.
   */
  lemma CleanFailure(f: Frame)
    requires WellFormed(f)
    ensures Clean(f).None? <==> CleanCurrency(Prepare(f)).None? || VERIFIED_FLAG !in Prepare(f).columns
  {
    var p := CleanCurrency(Prepare(f));
    if p.Some? {
      FinishFailure(p.value);
    }
  }

  /** The steps after the currency cleaning add `days_booked` when `availability_365` is there, and `is_superhost`. */
  lemma FinishColumns(p: Frame, g: Frame)
    requires WellFormed(p) && Finish(p) == Some(g)
    ensures forall n :: n in g.columns <==>
      n in p.columns || (n == DAYS_BOOKED && AVAILABILITY in p.columns) || n == HOST_LABEL
  {
    var b := AddDaysBooked(CoerceNumeric(p)).value;
    assert forall n :: n in b.columns <==> n in p.columns || (n == DAYS_BOOKED && AVAILABILITY in p.columns);
    assert g == LabelVerifiedHosts(LabelSuperhosts(b)).value;
  }

  /**
   * The columns of a successful run: the normalised names minus the four
   * dropped ones, plus `days_booked` when `availability_365` was there, plus
   * `is_superhost`.
   */
  lemma CleanColumns(f: Frame, g: Frame)
    requires WellFormed(f) && Clean(f) == Some(g)
    ensures var names := Headers.NormalizeHeaders(f.columns);
      forall n :: n in g.columns <==>
        (n in names && n !in Columns.COLUMNS_TO_DROP) || (n == DAYS_BOOKED && AVAILABILITY in names) || n == HOST_LABEL
  {
    CleanStages(f, g);
    PrepareColumns(f);
    AvailabilityKept(f);
    FinishColumns(CleanCurrency(Prepare(f)).value, g);
  }

  /** After the last steps every row carries one of the two host labels. */
  lemma FinishLabels(p: Frame, g: Frame)
    requires WellFormed(p) && Finish(p) == Some(g)
    ensures forall i :: 0 <= i < |g.rows| ==>
      Column(g, HOST_LABEL)[i] in {Text("Verified Host"), Text("Non-Verified Host")}
  {
    var b := AddDaysBooked(CoerceNumeric(p)).value;
    VerifiedLabels(LabelSuperhosts(b));
  }

  /** After a successful run every row carries one of the two host labels. */
  lemma CleanLabels(f: Frame, g: Frame)
    requires WellFormed(f) && Clean(f) == Some(g)
    ensures forall i :: 0 <= i < |g.rows| ==>
      Column(g, HOST_LABEL)[i] in {Text("Verified Host"), Text("Non-Verified Host")}
  {
    CleanStages(f, g);
    FinishLabels(CleanCurrency(Prepare(f)).value, g);
  }

  /** The last steps keep a column free of strings, and make the listed numeric ones so. */
  lemma FinishNoText(p: Frame, g: Frame, n: string)
    requires WellFormed(p) && Finish(p) == Some(g)
    requires n != DAYS_BOOKED && n != HOST_LABEL
    requires n in NUMERIC_COLUMNS || NoText(p, n)
    ensures NoText(g, n)
  {
    var c := CoerceNumeric(p);
    var b := AddDaysBooked(c).value;
    CoercionNoText(p, n);
    DaysBookedNoText(c, n);
    LabelsNoText(b, n);
  }

  /** None of the numeric columns is one of the two added ones. */
  lemma NumericNotAdded(n: string)
    requires NumericResult(n)
    ensures n != DAYS_BOOKED && n != HOST_LABEL
  {
    assert DAYS_BOOKED[0] == 'd' && HOST_LABEL[0] == 'i';
  }

  /** After a successful run the two currency columns and the five numeric columns hold no string. */
  lemma CleanNumbers(f: Frame, g: Frame, n: string)
    requires WellFormed(f) && Clean(f) == Some(g) && NumericResult(n)
    ensures NoText(g, n)
  {
    CleanStages(f, g);
    CurrencyNoText(Prepare(f));
    NumericNotAdded(n);
    FinishNoText(CleanCurrency(Prepare(f)).value, g, n);
  }

  /** With `availability_365` present, the last steps leave no string in `days_booked`. */
  lemma FinishDaysBooked(p: Frame, g: Frame)
    requires WellFormed(p) && Finish(p) == Some(g) && AVAILABILITY in p.columns
    ensures NoText(g, DAYS_BOOKED)
  {
    var c := CoerceNumeric(p);
    DaysBookedNoText(c, DAYS_BOOKED);
    LabelsNoText(AddDaysBooked(c).value, DAYS_BOOKED);
  }

  /** After a successful run on a table with `availability_365`, `days_booked` holds no string. */
  lemma CleanDaysBooked(f: Frame, g: Frame)
    requires WellFormed(f) && Clean(f) == Some(g) && AVAILABILITY in Headers.NormalizeHeaders(f.columns)
    ensures NoText(g, DAYS_BOOKED)
  {
    CleanStages(f, g);
    AvailabilityKept(f);
    FinishDaysBooked(CleanCurrency(Prepare(f)).value, g);
  }

  /** `days_booked` is in normalised form. */
  lemma DaysBookedNormalized()
    ensures Headers.IsNormalized(DAYS_BOOKED)
  {
    assert DAYS_BOOKED == ['d', 'a', 'y', 's', '_', 'b', 'o', 'o', 'k', 'e', 'd'];
  }

  /** `is_superhost` is in normalised form. */
  lemma HostLabelNormalized()
    ensures Headers.IsNormalized(HOST_LABEL)
  {
    assert HOST_LABEL == ['i', 's', '_', 's', 'u', 'p', 'e', 'r', 'h', 'o', 's', 't'];
  }

  /** Every column name of a successful run is in normalised form, so normalising the headers again changes nothing. */
  lemma CleanNamesNormalized(f: Frame, g: Frame)
    requires WellFormed(f) && Clean(f) == Some(g)
    ensures forall n :: n in g.columns ==> Headers.IsNormalized(n)
    ensures Headers.NormalizeHeaders(g.columns) == g.columns
  {
    CleanColumns(f, g);
    Headers.NormalizedHeadersProperties(f.columns);
    DaysBookedNormalized();
    HostLabelNormalized();
    Headers.NormalizedHeadersFixed(g.columns);
  }
}
