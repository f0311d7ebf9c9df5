/** The part of a pandas DataFrame that the scraper and the cleaner use: named
    columns, rows whose cells may be missing (NaN), selection of rows by a
    boolean mask, `drop_duplicates()` and `dropna(subset=...)`. */
module Frames {
  import opened Wrappers

  /** One row: column name to cell; `None` is a missing value (NaN). */
  type Row = map<string, Option<string>>

  datatype Table = Table(columns: seq<string>, rows: seq<Row>)

  /** `pd.DataFrame()`: no columns, no rows. */
  const EmptyFrame: Table := Table([], [])

  /** Columns are distinct and every row has a cell for exactly those columns. */
  ghost predicate WellFormed(t: Table)
  {
    (forall i, j :: 0 <= i < j < |t.columns| ==> t.columns[i] != t.columns[j]) &&
    (forall k :: 0 <= k < |t.rows| ==> t.rows[k].Keys == set c | c in t.columns)
  }

  predicate IsNa(row: Row, column: string)
  {
    column !in row || row[column].None?
  }

  ghost predicate NoDuplicates(rows: seq<Row>)
  {
    forall i, j :: 0 <= i < j < |rows| ==> rows[i] != rows[j]
  }

  /** `sub` is `s` read at the strictly increasing positions `idx`. */
  ghost predicate SubsequenceAt(sub: seq<Row>, s: seq<Row>, idx: seq<nat>)
  {
    |idx| == |sub| &&
    (forall k :: 0 <= k < |idx| ==> idx[k] < |s| && sub[k] == s[idx[k]]) &&
    (forall k, l :: 0 <= k < l < |idx| ==> idx[k] < idx[l])
  }

  /** Positions where `keep` is true, in increasing order. */
  function TrueIndices(keep: seq<bool>): (idx: seq<nat>)
    ensures forall k :: 0 <= k < |idx| ==> idx[k] < |keep| && keep[idx[k]]
    ensures forall i :: 0 <= i < |keep| && keep[i] ==> i in idx
    ensures forall k, l :: 0 <= k < l < |idx| ==> idx[k] < idx[l]
  {
    if keep == [] then []
    else
      var init := TrueIndices(keep[..|keep| - 1]);
      if keep[|keep| - 1] then init + [|keep| - 1] else init
  }

  /** Boolean indexing `df[mask]`: the rows whose mask entry is true, in order. */
  function Select(rows: seq<Row>, keep: seq<bool>): (r: seq<Row>)
    requires |keep| == |rows|
    ensures |r| <= |rows|
  {
    if rows == [] then []
    else
      var n := |rows| - 1;
      var init := Select(rows[..n], keep[..n]);
      if keep[n] then init + [rows[n]] else init
  }

  /** The selection is the input read at the true positions of the mask, in order. */
  lemma {:induction false} SelectAt(rows: seq<Row>, keep: seq<bool>)
    requires |keep| == |rows|
    ensures SubsequenceAt(Select(rows, keep), rows, TrueIndices(keep))
  {
    if rows != [] {
      var n := |rows| - 1;
      SelectAt(rows[..n], keep[..n]);
    }
  }

  lemma {:induction false} SelectAll(rows: seq<Row>, keep: seq<bool>)
    requires |keep| == |rows|
    requires forall i :: 0 <= i < |keep| ==> keep[i]
    ensures Select(rows, keep) == rows
  {
    if rows != [] {
      var n := |rows| - 1;
      assert forall i :: 0 <= i < n ==> keep[..n][i];
      SelectAll(rows[..n], keep[..n]);
      assert Select(rows, keep) == Select(rows[..n], keep[..n]) + [rows[n]];
      assert rows[..n] + [rows[n]] == rows;
    }
  }

  /** Every row of the selection is a row of the input. */
  lemma SelectMembers(rows: seq<Row>, keep: seq<bool>, x: Row)
    requires |keep| == |rows|
    requires x in Select(rows, keep)
    ensures exists i :: 0 <= i < |rows| && keep[i] && rows[i] == x
  {
    var r := Select(rows, keep);
    var idx := TrueIndices(keep);
    SelectAt(rows, keep);
    var k :| 0 <= k < |r| && r[k] == x;
    assert rows[idx[k]] == x && keep[idx[k]];
  }

  /** Rows that are kept are the rows that the selection contains. */
  lemma SelectKeeps(rows: seq<Row>, keep: seq<bool>, i: nat)
    requires |keep| == |rows| && i < |rows| && keep[i]
    ensures rows[i] in Select(rows, keep)
  {
    var idx := TrueIndices(keep);
    SelectAt(rows, keep);
    var k :| 0 <= k < |idx| && idx[k] == i;
    assert Select(rows, keep)[k] == rows[i];
  }

  // ----- drop_duplicates(keep='first') -----

  /** The mask of `~df.duplicated()`: a row is kept when no earlier row equals it
      (missing equals missing, since `None == None`). */
  function FirstOccurrenceMask(rows: seq<Row>): seq<bool>
  {
    seq(|rows|, i requires 0 <= i < |rows| => rows[i] !in rows[..i])
  }

  /** `df.drop_duplicates()` with pandas' defaults: all columns compared, first
      occurrence kept. */
  function DropDuplicates(rows: seq<Row>): seq<Row>
  {
    Select(rows, FirstOccurrenceMask(rows))
  }

  /** Keep-first and order: the result is the input read exactly at the
      positions of first occurrences, in increasing order. */
  lemma DropDuplicatesKeepsFirst(rows: seq<Row>)
    ensures SubsequenceAt(DropDuplicates(rows), rows, TrueIndices(FirstOccurrenceMask(rows)))
    ensures forall i :: 0 <= i < |rows| ==>
      (i in TrueIndices(FirstOccurrenceMask(rows)) <==> rows[i] !in rows[..i])
  {
    SelectAt(rows, FirstOccurrenceMask(rows));
  }

  /** No two rows of the result are equal. */
  lemma DropDuplicatesUnique(rows: seq<Row>)
    ensures NoDuplicates(DropDuplicates(rows))
  {
    var r := DropDuplicates(rows);
    var idx := TrueIndices(FirstOccurrenceMask(rows));
    SelectAt(rows, FirstOccurrenceMask(rows));
    forall k, l | 0 <= k < l < |r| ensures r[k] != r[l] {
      assert idx[k] < idx[l];
      assert rows[idx[l]] !in rows[..idx[l]];
      assert rows[idx[k]] == rows[..idx[l]][idx[k]];
    }
  }

  lemma {:induction false} FirstPosition(rows: seq<Row>, x: Row) returns (i: nat)
    requires x in rows
    ensures i < |rows| && rows[i] == x && x !in rows[..i]
  {
    var n := |rows| - 1;
    if x in rows[..n] {
      i := FirstPosition(rows[..n], x);
      assert rows[..n][..i] == rows[..i];
    } else {
      i := n;
    }
  }

  /** Nothing but duplicates is dropped: the result holds every distinct row of the input. */
  lemma DropDuplicatesSameRows(rows: seq<Row>, x: Row)
    ensures x in DropDuplicates(rows) <==> x in rows
  {
    var keep := FirstOccurrenceMask(rows);
    if x in rows {
      var i := FirstPosition(rows, x);
      SelectKeeps(rows, keep, i);
    }
    if x in DropDuplicates(rows) {
      SelectMembers(rows, keep, x);
    }
  }

  /** Rows without duplicates are left as they are. */
  lemma DropDuplicatesOfUnique(rows: seq<Row>)
    requires NoDuplicates(rows)
    ensures DropDuplicates(rows) == rows
  {
    var keep := FirstOccurrenceMask(rows);
    assert forall i :: 0 <= i < |rows| ==> keep[i];
    SelectAll(rows, keep);
  }

  lemma DropDuplicatesIdempotent(rows: seq<Row>)
    ensures DropDuplicates(DropDuplicates(rows)) == DropDuplicates(rows)
  {
    DropDuplicatesUnique(rows);
    DropDuplicatesOfUnique(DropDuplicates(rows));
  }

  // ----- dropna(subset=..., how='any') -----

  predicate HasAll(row: Row, subset: seq<string>)
  {
    forall c :: c in subset ==> !IsNa(row, c)
  }

  /** The mask of `df[subset].notna().all(axis=1)`. */
  function CompleteMask(rows: seq<Row>, subset: seq<string>): seq<bool>
  {
    seq(|rows|, i requires 0 <= i < |rows| => HasAll(rows[i], subset))
  }

  /** `df.dropna(subset=subset)` once the subset columns are known to exist: the rows
      with a value in every subset column, in order. */
  function DropNa(rows: seq<Row>, subset: seq<string>): seq<Row>
  {
    Select(rows, CompleteMask(rows, subset))
  }

  /** Every surviving row has a value in each subset column, and every row that
      has one survives. */
  lemma DropNaExactly(rows: seq<Row>, subset: seq<string>, x: Row)
    ensures x in DropNa(rows, subset) <==> x in rows && HasAll(x, subset)
  {
    var keep := CompleteMask(rows, subset);
    if x in DropNa(rows, subset) {
      SelectMembers(rows, keep, x);
    }
    if x in rows && HasAll(x, subset) {
      var i :| 0 <= i < |rows| && rows[i] == x;
      SelectKeeps(rows, keep, i);
    }
  }

  lemma DropNaOfComplete(rows: seq<Row>, subset: seq<string>)
    requires forall k :: 0 <= k < |rows| ==> HasAll(rows[k], subset)
    ensures DropNa(rows, subset) == rows
  {
    SelectAll(rows, CompleteMask(rows, subset));
  }

  /** A subsequence of rows without duplicates has none either. */
  lemma UniqueSubsequence(sub: seq<Row>, s: seq<Row>, idx: seq<nat>)
    requires SubsequenceAt(sub, s, idx) && NoDuplicates(s)
    ensures NoDuplicates(sub)
  {
    forall k, l | 0 <= k < l < |sub| ensures sub[k] != sub[l] {
      assert idx[k] < idx[l];
    }
  }

  /** Selection keeps the shape of a well-formed table's rows. */
  lemma SelectWellFormed(t: Table, keep: seq<bool>)
    requires WellFormed(t) && |keep| == |t.rows|
    ensures WellFormed(Table(t.columns, Select(t.rows, keep)))
  {
    var r := Select(t.rows, keep);
    var idx := TrueIndices(keep);
    SelectAt(t.rows, keep);
    forall k | 0 <= k < |r| ensures r[k].Keys == set c | c in t.columns {
      assert r[k] == t.rows[idx[k]];
    }
  }
}
