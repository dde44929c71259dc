/**
 * The table the script loads from the dataset CSV, and the removal of the
 * rows in which every cell is NaN (temp.py, lines 25-28).
 *
 * A table is its header plus an ordered sequence of rows; a row holds one
 * optional cell per column, `None` standing for NaN.  Pandas evaluates
 * `df.isna().all(axis=1)` into a boolean mask over the rows and then indexes
 * the frame with that mask (line 25) or with its negation (line 28); the model
 * keeps that shape: `IsNaAll` is the mask, `Not` is `~`, `Select` is boolean
 * indexing.
 */
module Table {
  import opened Wrappers

  /** A parsed cell value. Floating-point cells are abstracted as integers. */
  datatype Value = Text(s: string) | Number(n: int)

  type Cell = Option<Value>

  type Row = seq<Cell>

  datatype Frame = Frame(columns: seq<string>, rows: seq<Row>) {
    /** Every row has exactly one cell per column, as in a DataFrame. */
    predicate WellFormed() {
      forall i :: 0 <= i < |rows| ==> |rows[i]| == |columns|
    }
  }

  /** `row.isna().all()`: every cell is NaN (vacuously true of a row with no cells). */
  predicate AllAbsent(row: Row) {
    forall c :: 0 <= c < |row| ==> row[c].None?
  }

  /** The mask `df.isna().all(axis=1)`, one entry per row. */
  function IsNaAll(rows: seq<Row>): (mask: seq<bool>)
    ensures |mask| == |rows|
  {
    seq(|rows|, i requires 0 <= i < |rows| => AllAbsent(rows[i]))
  }

  /** The element-wise negation `~mask`. */
  function Not(mask: seq<bool>): (r: seq<bool>)
    ensures |r| == |mask|
  {
    seq(|mask|, i requires 0 <= i < |mask| => !mask[i])
  }

  /** Boolean indexing `s[mask]`: the elements whose mask entry is true, in order. */
  function Select<T>(s: seq<T>, mask: seq<bool>): (r: seq<T>)
    requires |mask| == |s|
    ensures |r| <= |s|
    ensures forall x :: x in r ==> x in s
  {
    if s == [] then [] else (if mask[0] then [s[0]] else []) + Select(s[1..], mask[1..])
  }

  /** The indices at which `mask` is true, in increasing order. */
  function Positions(mask: seq<bool>): seq<nat> {
    if mask == [] then [] else (if mask[0] then [0] else []) + Shift(Positions(mask[1..]))
  }

  function Shift(p: seq<nat>): seq<nat> {
    seq(|p|, i requires 0 <= i < |p| => p[i] + 1)
  }

  ghost predicate Increasing(p: seq<nat>) {
    forall i, j :: 0 <= i < j < |p| ==> p[i] < p[j]
  }

  /** The number of all-NaN rows, counted one row at a time. */
  function CountAllAbsent(rows: seq<Row>): nat {
    if rows == [] then 0 else (if AllAbsent(rows[0]) then 1 else 0) + CountAllAbsent(rows[1..])
  }

  /** The number printed on line 25: how many rows the all-NaN mask selects. */
  function RemovedCount(t: Frame): (n: nat)
    ensures n <= |t.rows|
  {
    |Select(t.rows, IsNaAll(t.rows))|
  }

  /** Line 28: the frame indexed by the negated all-NaN mask. */
  function DropAllAbsent(t: Frame): (r: Frame)
    ensures r.columns == t.columns
    ensures t.WellFormed() ==> r.WellFormed()
  {
    var mask := Not(IsNaAll(t.rows));
    SelectAt(t.rows, mask);
    Frame(t.columns, Select(t.rows, mask))
  }

  /** The indices of the rows that line 28 keeps. */
  function KeptIndices(t: Frame): seq<nat> {
    Positions(Not(IsNaAll(t.rows)))
  }

  // ---------------------------------------------------------------------
  // Boolean indexing

  /** Shifting adds one to every index and keeps them increasing. */
  lemma ShiftMembership(p: seq<nat>)
    ensures Increasing(p) ==> Increasing(Shift(p))
    ensures forall j :: j in Shift(p) <==> 1 <= j && j - 1 in p
  {
    forall j ensures j in Shift(p) <==> 1 <= j && j - 1 in p {
      if 1 <= j && j - 1 in p {
        var i :| 0 <= i < |p| && p[i] == j - 1;
        assert Shift(p)[i] == j;
      }
    }
  }

  /** `Positions` lists exactly the true entries of the mask, in increasing order. */
  lemma {:induction false} PositionsExact(mask: seq<bool>)
    ensures Increasing(Positions(mask))
    ensures forall j :: j in Positions(mask) <==> 0 <= j < |mask| && mask[j]
  {
    PositionsMembership(mask);
    PositionsIncreasing(mask);
  }

  lemma {:induction false} PositionsMembership(mask: seq<bool>)
    ensures forall j :: j in Positions(mask) <==> 0 <= j < |mask| && mask[j]
  {
    if mask != [] {
      var tail := Positions(mask[1..]);
      PositionsMembership(mask[1..]);
      ShiftMembership(tail);
      var head: seq<nat> := if mask[0] then [0] else [];
      assert Positions(mask) == head + Shift(tail);
      forall j ensures j in Positions(mask) <==> 0 <= j < |mask| && mask[j] {
        assert j in Positions(mask) <==> j in head || j in Shift(tail);
        if 1 <= j < |mask| {
          assert mask[1..][j - 1] == mask[j];
        }
      }
    }
  }

  lemma {:induction false} PositionsIncreasing(mask: seq<bool>)
    ensures Increasing(Positions(mask))
  {
    if mask != [] {
      var tail := Positions(mask[1..]);
      PositionsIncreasing(mask[1..]);
      ShiftMembership(tail);
      if mask[0] {
        assert Positions(mask) == [0] + Shift(tail);
        forall i | 0 < i < |Positions(mask)| ensures 0 < Positions(mask)[i] {
          assert Positions(mask)[i] == Shift(tail)[i - 1];
        }
      }
    }
  }

  /** Boolean indexing picks, at output position k, the input at the k-th true index. */
  lemma {:induction false} SelectAt<T>(s: seq<T>, mask: seq<bool>)
    requires |mask| == |s|
    ensures |Select(s, mask)| == |Positions(mask)|
    ensures forall k :: 0 <= k < |Positions(mask)| ==>
              Positions(mask)[k] < |s| && Select(s, mask)[k] == s[Positions(mask)[k]]
  {
    if s != [] {
      var rest, tail := Select(s[1..], mask[1..]), Positions(mask[1..]);
      SelectAt(s[1..], mask[1..]);
      var d := if mask[0] then 1 else 0;
      assert Select(s, mask) == (if mask[0] then [s[0]] else []) + rest;
      assert Positions(mask) == (if mask[0] then [0] else []) + Shift(tail);
      forall k | d <= k < |Positions(mask)|
        ensures Positions(mask)[k] < |s| && Select(s, mask)[k] == s[Positions(mask)[k]]
      {
        assert Select(s, mask)[k] == rest[k - d];
        assert Positions(mask)[k] == tail[k - d] + 1;
        assert s[1..][tail[k - d]] == s[tail[k - d] + 1];
      }
    }
  }

  /** A mask that is true everywhere selects the whole sequence. */
  lemma {:induction false} SelectAll<T>(s: seq<T>, mask: seq<bool>)
    requires |mask| == |s|
    requires forall i :: 0 <= i < |mask| ==> mask[i]
    ensures Select(s, mask) == s
  {
    if s != [] {
      SelectAll(s[1..], mask[1..]);
      assert s == [s[0]] + s[1..];
    }
  }

  /** A mask and its negation split the sequence: every element goes to exactly one of the two selections. */
  lemma {:induction false} SelectComplement<T>(s: seq<T>, mask: seq<bool>)
    requires |mask| == |s|
    ensures |Select(s, mask)| + |Select(s, Not(mask))| == |s|
    ensures multiset(Select(s, mask)) + multiset(Select(s, Not(mask))) == multiset(s)
  {
    if s != [] {
      assert Not(mask)[1..] == Not(mask[1..]);
      SelectComplement(s[1..], mask[1..]);
      assert s == [s[0]] + s[1..];
    }
  }

  // ---------------------------------------------------------------------
  // Properties of the filter on line 28 and the count on line 25

  /**
   * The filter keeps exactly the rows with at least one present cell, in their
   * original order and unchanged: output row k is input row KeptIndices(t)[k],
   * the kept indices increase, and an index is kept iff its row is not all NaN.
   */
  lemma DropAllAbsentKeepsExactly(t: Frame)
    ensures var r, idx := DropAllAbsent(t), KeptIndices(t);
      && r.columns == t.columns
      && |r.rows| == |idx|
      && Increasing(idx)
      && (forall j :: j in idx <==> 0 <= j < |t.rows| && !AllAbsent(t.rows[j]))
      && (forall k :: 0 <= k < |idx| ==> idx[k] < |t.rows| && r.rows[k] == t.rows[idx[k]])
  {
    var mask := Not(IsNaAll(t.rows));
    SelectAt(t.rows, mask);
    PositionsExact(mask);
  }

  /** Membership form: a row survives iff it was in the table and has a present cell. */
  lemma DropAllAbsentMembership(t: Frame, row: Row)
    ensures row in DropAllAbsent(t).rows <==> row in t.rows && !AllAbsent(row)
  {
    DropAllAbsentKeepsExactly(t);
    var r, idx := DropAllAbsent(t), KeptIndices(t);
    if row in r.rows {
      var k :| 0 <= k < |r.rows| && r.rows[k] == row;
      assert idx[k] in idx;
    }
    if row in t.rows && !AllAbsent(row) {
      var j :| 0 <= j < |t.rows| && t.rows[j] == row;
      assert j in idx;
      var k :| 0 <= k < |idx| && idx[k] == j;
      assert r.rows[k] == row;
    }
  }

  /** After the filter no row is all NaN. */
  lemma DropAllAbsentLeavesNoEmptyRow(t: Frame)
    ensures forall k :: 0 <= k < |DropAllAbsent(t).rows| ==> !AllAbsent(DropAllAbsent(t).rows[k])
  {
    DropAllAbsentKeepsExactly(t);
    var idx := KeptIndices(t);
    forall k | 0 <= k < |idx| ensures !AllAbsent(DropAllAbsent(t).rows[k]) {
      assert idx[k] in idx;
    }
  }

  /** A table without all-NaN rows (an empty one included) passes through unchanged. */
  lemma DropAllAbsentIdentity(t: Frame)
    requires forall i :: 0 <= i < |t.rows| ==> !AllAbsent(t.rows[i])
    ensures DropAllAbsent(t) == t
  {
    SelectAll(t.rows, Not(IsNaAll(t.rows)));
  }

  /** Filtering a second time changes nothing. */
  lemma DropAllAbsentIdempotent(t: Frame)
    ensures DropAllAbsent(DropAllAbsent(t)) == DropAllAbsent(t)
  {
    DropAllAbsentLeavesNoEmptyRow(t);
    DropAllAbsentIdentity(DropAllAbsent(t));
  }

  /** Line 25 counts the rows with one mask, line 28 keeps the others. */
  lemma {:induction false} SelectNaAllCounts(rows: seq<Row>)
    ensures |Select(rows, IsNaAll(rows))| == CountAllAbsent(rows)
  {
    if rows != [] {
      assert IsNaAll(rows)[1..] == IsNaAll(rows[1..]);
      SelectNaAllCounts(rows[1..]);
    }
  }

  /**
   * The count reported on line 25 is the number of all-NaN rows, which is
   * also the number of rows that line 28 removes.
   */
  lemma RemovedCountMatchesFilter(t: Frame)
    ensures RemovedCount(t) == CountAllAbsent(t.rows)
    ensures RemovedCount(t) == |t.rows| - |DropAllAbsent(t).rows|
  {
    SelectNaAllCounts(t.rows);
    SelectComplement(t.rows, IsNaAll(t.rows));
  }
}
