/**
 * The script's `df`, cleaned in place (airbnb.py lines 42-127 and
 * 264-266). Each method is one statement of the script and leaves the
 * table equal to the matching function of module Frames applied to the
 * table before it; a step that raises reports `false` and leaves the table
 * unchanged, since the assignment it belongs to never happens.
 */
module Pipeline {
  import opened Wrappers
  import opened Cells
  import Frames
  import Headers
  import Columns
  import Dedup

  class Table {
    var columns: seq<string>
    var rows: seq<seq<Cell>>

    /** The table as a value. */
    function Snapshot(): Frames.Frame
      reads this
    {
      Frames.Frame(columns, rows)
    }

    /** Every row has one cell per column. */
    predicate Valid()
      reads this
    {
      Frames.WellFormed(Snapshot())
    }

    /** `pd.read_csv(...)`: the file's header and rows. */
    constructor (header: seq<string>, records: seq<seq<Cell>>)
      requires Frames.WellFormed(Frames.Frame(header, records))
      ensures Valid() && columns == header && rows == records
    {
      columns := header;
      rows := records;
    }

    /** Lines 42-48. */
    method NormalizeHeaders()
      requires Valid()
      modifies this
      ensures Valid() && Snapshot() == Frames.NormalizeHeaders(old(Snapshot()))
    {
      columns := Headers.NormalizeHeaders(columns);
    }

    /** Lines 57-59. */
    method DropUnneededColumns()
      requires Valid()
      modifies this
      ensures Valid() && Snapshot() == Frames.DropUnneededColumns(old(Snapshot()))
    {
      var pruned := Frames.DropUnneededColumns(Snapshot());
      columns, rows := pruned.columns, pruned.rows;
    }

    /** Line 76. */
    method DropDuplicates()
      requires Valid()
      modifies this
      ensures Valid() && Snapshot() == Frames.DropDuplicateRows(old(Snapshot()))
    {
      rows := Dedup.DropDuplicates(rows);
    }

    /** Lines 93-94 or 96-97: `df[name] = clean_currency_column(name)` when `name` is a column. */
    method CleanCurrencyColumn(name: string) returns (ok: bool)
      requires Valid()
      modifies this
      ensures Valid()
      ensures ok <==> Frames.CleanCurrencyColumn(old(Snapshot()), name).Some?
      ensures ok ==> Snapshot() == Frames.CleanCurrencyColumn(old(Snapshot()), name).value
      ensures !ok ==> Snapshot() == old(Snapshot())
    {
      ok := true;
      if name in columns {
        match Frames.TryMapColumn(Snapshot(), name, CleanCurrencyCell)
        case None =>
          ok := false;
        case Some(cleaned) =>
          rows := cleaned.rows;
      }
    }

    /** Lines 93-97. When `service_fee` fails, `price` has already been converted. */
    method CleanCurrencyColumns() returns (ok: bool)
      requires Valid()
      modifies this
      ensures Valid()
      ensures ok <==> Frames.CleanCurrency(old(Snapshot())).Some?
      ensures ok ==> Snapshot() == Frames.CleanCurrency(old(Snapshot())).value
      ensures !ok ==> Snapshot() == match Frames.CleanCurrencyColumn(old(Snapshot()), Frames.PRICE)
        case None => old(Snapshot())
        case Some(priced) => priced
    {
      ok := CleanCurrencyColumn(Frames.PRICE);
      if ok {
        ok := CleanCurrencyColumn(Frames.SERVICE_FEE);
      }
    }

    /** Lines 100-110: `for col in numeric_columns: if col in df.columns: df[col] = pd.to_numeric(...)`. */
    method CoerceNumericColumns()
      requires Valid()
      modifies this
      ensures Valid() && Snapshot() == Frames.CoerceNumeric(old(Snapshot()))
    {
      ghost var start := Snapshot();
      var k := 0;
      while k < |Frames.NUMERIC_COLUMNS|
        invariant 0 <= k <= |Frames.NUMERIC_COLUMNS|
        invariant Valid() && Snapshot() == Frames.CoerceFor(start, Frames.NUMERIC_COLUMNS[..k])
      {
        var col := Frames.NUMERIC_COLUMNS[k];
        if col in columns {
          rows := Frames.MapColumn(Snapshot(), col, CoerceCell).rows;
        }
        assert Frames.NUMERIC_COLUMNS[..k + 1][..k] == Frames.NUMERIC_COLUMNS[..k];
        k := k + 1;
      }
      assert Frames.NUMERIC_COLUMNS[..k] == Frames.NUMERIC_COLUMNS;
    }

    /** Lines 120-121. */
    method AddDaysBooked() returns (ok: bool)
      requires Valid()
      modifies this
      ensures Valid()
      ensures ok <==> Frames.AddDaysBooked(old(Snapshot())).Some?
      ensures ok ==> Snapshot() == Frames.AddDaysBooked(old(Snapshot())).value
      ensures !ok ==> Snapshot() == old(Snapshot())
    {
      ok := true;
      if Frames.AVAILABILITY in columns {
        match Frames.DaysBookedValues(Frames.Column(Snapshot(), Frames.AVAILABILITY))
        case None =>
          ok := false;
        case Some(days) =>
          var booked := Frames.SetColumn(Snapshot(), Frames.DAYS_BOOKED, days);
          columns, rows := booked.columns, booked.rows;
      }
    }

    /** Lines 124-127. */
    method LabelSuperhosts()
      requires Valid()
      modifies this
      ensures Valid() && Snapshot() == Frames.LabelSuperhosts(old(Snapshot()))
    {
      if Frames.SUPERHOST_FLAG in columns {
        var labelled := Frames.LabelColumn(Snapshot(), Frames.SUPERHOST_FLAG, SuperhostLabel);
        columns, rows := labelled.columns, labelled.rows;
      }
    }

    /** Lines 264-266: a `KeyError` when `host_identity_verified` is missing. */
    method LabelVerifiedHosts() returns (ok: bool)
      requires Valid()
      modifies this
      ensures Valid()
      ensures ok <==> Frames.LabelVerifiedHosts(old(Snapshot())).Some?
      ensures ok ==> Snapshot() == Frames.LabelVerifiedHosts(old(Snapshot())).value
      ensures !ok ==> Snapshot() == old(Snapshot())
    {
      ok := Frames.VERIFIED_FLAG in columns;
      if ok {
        var labelled := Frames.LabelColumn(Snapshot(), Frames.VERIFIED_FLAG, VerifiedLabel);
        columns, rows := labelled.columns, labelled.rows;
      }
    }

    /** The cleaning statements of the script in their order; `false` when one of them raises. */
    method Clean() returns (ok: bool)
      requires Valid()
      modifies this
      ensures Valid()
      ensures ok <==> Frames.Clean(old(Snapshot())).Some?
      ensures ok ==> Snapshot() == Frames.Clean(old(Snapshot())).value
      ensures !ok ==> Snapshot() == Frames.Interrupted(old(Snapshot()))
    {
      NormalizeHeaders();
      DropUnneededColumns();
      DropDuplicates();
      ok := CleanCurrencyColumns();
      if !ok {
        return;
      }
      CoerceNumericColumns();
      ok := AddDaysBooked();
      if !ok {
        return;
      }
      LabelSuperhosts();
      ok := LabelVerifiedHosts();
    }
  }
}
