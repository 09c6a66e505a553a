/**
 * Column pruning (airbnb.py lines 57-59): the identifier and locale columns
 * that are present are dropped; the others keep their order, and their cells
 * stay with them.
 */
module Columns {

  const COLUMNS_TO_DROP: seq<string> := ["host_id", "id", "country", "country_code"]

  /** `[col for col in columns_to_drop if col in df.columns]`. */
  function PresentDrops(columns: seq<string>): (r: seq<string>)
    ensures forall n :: n in r <==> n in COLUMNS_TO_DROP && n in columns
  {
    PresentAmong(COLUMNS_TO_DROP, columns)
  }

  function PresentAmong(candidates: seq<string>, columns: seq<string>): (r: seq<string>)
    ensures forall n :: n in r <==> n in candidates && n in columns
  {
    if candidates == [] then []
    else (if candidates[0] in columns then [candidates[0]] else []) + PresentAmong(candidates[1..], columns)
  }

  /**
   * `df.drop(columns=drops)` applied to one row, or to the header itself:
   * the entries whose column name is in `drops` are removed.
   */
  function Keep<T>(columns: seq<string>, drops: seq<string>, xs: seq<T>): (r: seq<T>)
    requires |xs| == |columns|
    ensures |r| <= |xs|
    decreases |xs|
  {
    if xs == [] then []
    else (if columns[0] in drops then [] else [xs[0]]) + Keep(columns[1..], drops, xs[1..])
  }

  /** The pruned header. */
  function PrunedColumns(columns: seq<string>): (r: seq<string>)
    ensures |r| <= |columns|
  {
    Keep(columns, PresentDrops(columns), columns)
  }

  /** One row with the dropped columns' cells removed. */
  function PrunedRow<T>(columns: seq<string>, row: seq<T>): (r: seq<T>)
    requires |row| == |columns|
    ensures |r| <= |row|
  {
    Keep(columns, PresentDrops(columns), row)
  }

  /** Pruning works block by block, so it keeps the relative order of what it keeps. */
  lemma {:induction false} KeepConcat<T>(c1: seq<string>, c2: seq<string>, drops: seq<string>, x1: seq<T>, x2: seq<T>)
    requires |x1| == |c1| && |x2| == |c2|
    ensures Keep(c1 + c2, drops, x1 + x2) == Keep(c1, drops, x1) + Keep(c2, drops, x2)
    decreases |x1|
  {
    if x1 == [] {
      assert c1 + c2 == c2 && x1 + x2 == x2;
    } else {
      assert (c1 + c2)[1..] == c1[1..] + c2 && (x1 + x2)[1..] == x1[1..] + x2;
      KeepConcat(c1[1..], c2, drops, x1[1..], x2);
    }
  }

  /** A name is kept exactly when it was there and is not dropped. */
  lemma {:induction false} KeepMembers(columns: seq<string>, drops: seq<string>)
    ensures forall n :: n in Keep(columns, drops, columns) <==> n in columns && n !in drops
    decreases |columns|
  {
    if columns != [] {
      KeepMembers(columns[1..], drops);
      assert columns == [columns[0]] + columns[1..];
    }
  }

  /** The header and every row are pruned to the same width, so cells stay aligned. */
  lemma {:induction false} KeepWidth<T, U>(columns: seq<string>, drops: seq<string>, xs: seq<T>, ys: seq<U>)
    requires |xs| == |columns| && |ys| == |columns|
    ensures |Keep(columns, drops, xs)| == |Keep(columns, drops, ys)|
    decreases |xs|
  {
    if xs != [] {
      KeepWidth(columns[1..], drops, xs[1..], ys[1..]);
    }
  }

  /**
   * Each kept cell stays under its own column name: pruning the pairs
   * (name, cell) is the same as pairing the pruned header with the pruned row.
   */
  lemma {:induction false} KeepAligned<T>(columns: seq<string>, drops: seq<string>, row: seq<T>, k: nat)
    requires |row| == |columns|
    requires k < |Keep(columns, drops, row)|
    ensures |Keep(columns, drops, columns)| == |Keep(columns, drops, row)|
    ensures exists j ::
      (0 <= j < |columns| && columns[j] !in drops
       && Keep(columns, drops, columns)[k] == columns[j] && Keep(columns, drops, row)[k] == row[j])
    decreases |row|
  {
    KeepWidth(columns, drops, columns, row);
    if columns[0] in drops {
      KeepAligned(columns[1..], drops, row[1..], k);
      var j :| 0 <= j < |columns[1..]| && columns[1..][j] !in drops
        && Keep(columns[1..], drops, columns[1..])[k] == columns[1..][j] && Keep(columns[1..], drops, row[1..])[k] == row[1..][j];
      assert columns[j + 1] !in drops;
    } else if k == 0 {
      assert columns[0] !in drops;
    } else {
      KeepAligned(columns[1..], drops, row[1..], k - 1);
      var j :| 0 <= j < |columns[1..]| && columns[1..][j] !in drops
        && Keep(columns[1..], drops, columns[1..])[k - 1] == columns[1..][j] && Keep(columns[1..], drops, row[1..])[k - 1] == row[1..][j];
      assert columns[j + 1] !in drops;
    }
  }

  /**
   * After pruning none of the four names is left, every other name is kept,
   * and nothing new appears.
   */
  lemma PrunedColumnsMembers(columns: seq<string>)
    ensures forall n :: n in PrunedColumns(columns) <==> n in columns && n !in COLUMNS_TO_DROP
  {
    KeepMembers(columns, PresentDrops(columns));
  }

  /** When none of the four names is present, pruning changes nothing and raises nothing. */
  lemma {:induction false} PruneAbsent<T>(columns: seq<string>, row: seq<T>)
    requires |row| == |columns|
    requires forall n :: n in COLUMNS_TO_DROP ==> n !in columns
    ensures PresentDrops(columns) == []
    ensures PrunedRow(columns, row) == row
  {
    PresentAmongNone(COLUMNS_TO_DROP, columns);
    KeepNothing(columns, row);
  }

  /** No candidate present, none listed. */
  lemma {:induction false} PresentAmongNone(candidates: seq<string>, columns: seq<string>)
    requires forall n :: n in candidates ==> n !in columns
    ensures PresentAmong(candidates, columns) == []
    decreases |candidates|
  {
    if candidates != [] {
      assert candidates[0] !in columns;
      PresentAmongNone(candidates[1..], columns);
    }
  }

  /** Dropping an empty list of names keeps everything. */
  lemma {:induction false} KeepNothing<T>(columns: seq<string>, xs: seq<T>)
    requires |xs| == |columns|
    ensures Keep(columns, [], xs) == xs
    decreases |xs|
  {
    if xs != [] {
      KeepNothing(columns[1..], xs[1..]);
    }
  }

  /** Pruning twice is pruning once. */
  lemma PruneIdempotent(columns: seq<string>)
    ensures PrunedColumns(PrunedColumns(columns)) == PrunedColumns(columns)
  {
    var once := PrunedColumns(columns);
    PrunedColumnsMembers(columns);
    PruneAbsent(once, once);
  }
}
