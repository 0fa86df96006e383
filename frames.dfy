/**
 * The pandas data frames the scripts pass around: a price series plus named
 * columns of the same length whose entries may be missing (NaN).
 *
 * Row positions stand for the frame's index; `reset_index(drop=True)` is
 * therefore implicit.  Dates and the raw cumulative-return column carry no
 * missing values and are not modelled.
 */
module Frames {
  import opened Numeric

  /** Column names; `Registered(id)` is the column of registry feature `id`. */
  datatype ColumnName =
    | Ret
    | RetLag(lag: nat)
    | MaShort
    | MaLong
    | MaRatioShort
    | MaRatioLong
    | Vol
    | Registered(id: string)
    | Target

  type Col = seq<Option<real>>

  datatype Frame = Frame(price: seq<real>, cols: map<ColumnName, Col>)

  predicate WellFormed(f: Frame)
  {
    forall c :: c in f.cols ==> |f.cols[c]| == |f.price|
  }

  /** A price series with no derived columns yet. */
  function PriceFrame(p: seq<real>): (f: Frame)
    ensures WellFormed(f) && f.price == p && f.cols == map[]
  {
    Frame(p, map[])
  }

  /** The prices as a column without missing values. */
  function Lift(p: seq<real>): (c: Col)
    ensures |c| == |p| && forall t :: 0 <= t < |p| ==> c[t] == Some(p[t])
  {
    seq(|p|, t requires 0 <= t < |p| => Some(p[t]))
  }

  /** pandas `shift(i)` for `i >= 0`: row `t` takes row `t - i`. */
  function ShiftDown(c: Col, i: nat): (r: Col)
    ensures |r| == |c|
    ensures forall t :: 0 <= t < |c| ==> r[t] == if t < i then None else c[t - i]
  {
    seq(|c|, t requires 0 <= t < |c| => if t < i then None else c[t - i])
  }

  /** pandas `shift(-i)` for `i >= 0`: row `t` takes row `t + i`. */
  function ShiftUp(c: Col, i: nat): (r: Col)
    ensures |r| == |c|
    ensures forall t :: 0 <= t < |c| ==> r[t] == if t + i < |c| then c[t + i] else None
  {
    seq(|c|, t requires 0 <= t < |c| => if t + i < |c| then c[t + i] else None)
  }

  // ------------------------------------------------------------- dropna

  /** Every column in `names` is defined at row `t`. */
  predicate RowComplete(f: Frame, names: set<ColumnName>, t: nat)
    requires WellFormed(f) && names <= f.cols.Keys && t < |f.price|
  {
    forall c :: c in names ==> f.cols[c][t].Some?
  }

  predicate StrictlyIncreasing(rows: seq<nat>)
  {
    forall i, j :: 0 <= i < j < |rows| ==> rows[i] < rows[j]
  }

  /** The rows among the first `m` that `dropna(subset=names)` keeps, in order. */
  function KeptRows(f: Frame, names: set<ColumnName>, m: nat): (rows: seq<nat>)
    requires WellFormed(f) && names <= f.cols.Keys && m <= |f.price|
    ensures StrictlyIncreasing(rows)
    ensures forall i :: 0 <= i < |rows| ==> rows[i] < m
    ensures forall t :: 0 <= t < m ==> (t in rows <==> RowComplete(f, names, t))
  {
    if m == 0 then []
    else
      var prev := KeptRows(f, names, m - 1);
      if RowComplete(f, names, m - 1) then prev + [m - 1] else prev
  }

  /** The entries of `xs` at the given row positions. */
  function Select<T>(xs: seq<T>, rows: seq<nat>): (r: seq<T>)
    requires forall i :: 0 <= i < |rows| ==> rows[i] < |xs|
    ensures |r| == |rows| && forall i :: 0 <= i < |rows| ==> r[i] == xs[rows[i]]
  {
    seq(|rows|, i requires 0 <= i < |rows| => xs[rows[i]])
  }

  /** `dropna(subset=names)`: keep the rows where every column in `names` is defined. */
  function DropNa(f: Frame, names: set<ColumnName>): (g: Frame)
    requires WellFormed(f) && names <= f.cols.Keys
    ensures WellFormed(g) && g.cols.Keys == f.cols.Keys
    ensures |g.price| <= |f.price|
    ensures forall t :: 0 <= t < |g.price| ==> RowComplete(g, names, t)
  {
    var rows := KeptRows(f, names, |f.price|);
    assert forall i :: 0 <= i < |rows| ==> RowComplete(f, names, rows[i]);
    assert |rows| <= |f.price| by {
      StrictlyIncreasingBound(rows, |f.price|);
    }
    Frame(Select(f.price, rows), map c | c in f.cols :: Select(f.cols[c], rows))
  }

  lemma {:induction false} StrictlyIncreasingBound(rows: seq<nat>, m: nat)
    requires StrictlyIncreasing(rows) && forall i :: 0 <= i < |rows| ==> rows[i] < m
    ensures |rows| <= m
    ensures |rows| > 0 ==> rows[|rows| - 1] >= |rows| - 1
  {
    if |rows| > 0 {
      var init := rows[..|rows| - 1];
      StrictlyIncreasingBound(init, rows[|rows| - 1]);
    }
  }

  /** When the complete rows are exactly `lo .. hi - 1`, `dropna` keeps exactly those. */
  lemma {:induction false} KeptRowsInterval(f: Frame, names: set<ColumnName>, m: nat, lo: nat, hi: nat)
    requires WellFormed(f) && names <= f.cols.Keys && m <= |f.price|
    requires forall t :: 0 <= t < |f.price| ==> (RowComplete(f, names, t) <==> lo <= t < hi)
    ensures KeptRows(f, names, m) == seq(if lo <= m && lo <= hi then (if m < hi then m else hi) - lo else 0, i => lo + i)
  {
    if m > 0 {
      KeptRowsInterval(f, names, m - 1, lo, hi);
    }
  }

  /** The column names of a list, as a set. */
  function NameSet(names: seq<ColumnName>): (s: set<ColumnName>)
    ensures forall c :: c in s <==> c in names
  {
    set j | 0 <= j < |names| :: names[j]
  }

  /** `dropna(subset=names).iloc[-1][names]`: the last complete row's values, or an error when no row is left. */
  function LastCompleteRow(f: Frame, names: seq<ColumnName>): (r: Result<seq<real>, string>)
    requires WellFormed(f) && forall j :: 0 <= j < |names| ==> names[j] in f.cols
    ensures r.Success? ==> |r.value| == |names|
  {
    var g := DropNa(f, NameSet(names));
    if |g.price| == 0 then Failure("No valid feature rows")
    else
      assert RowComplete(g, NameSet(names), |g.price| - 1);
      Success(seq(|names|, j requires 0 <= j < |names| => g.cols[names[j]][|g.price| - 1].value))
  }

  /** The last row `dropna` keeps is the last complete row of the frame. */
  lemma DropNaLastRow(f: Frame, names: set<ColumnName>, t: nat)
    requires WellFormed(f) && names <= f.cols.Keys && t < |f.price| && RowComplete(f, names, t)
    requires forall u :: t < u < |f.price| ==> !RowComplete(f, names, u)
    ensures var g := DropNa(f, names);
      |g.price| > 0 && forall c :: c in f.cols ==> g.cols[c][|g.price| - 1] == f.cols[c][t]
  {
    var rows := KeptRows(f, names, |f.price|);
    assert t in rows;
    var k := |rows| - 1;
    assert rows[k] == t by {
      assert RowComplete(f, names, rows[k]) by {
        assert rows[k] in rows;
      }
      var i :| 0 <= i < |rows| && rows[i] == t;
      assert i <= k;
    }
  }

  /** No row is left exactly when no row of the frame is complete. */
  lemma DropNaEmptyIff(f: Frame, names: set<ColumnName>)
    requires WellFormed(f) && names <= f.cols.Keys
    ensures |DropNa(f, names).price| == 0 <==> forall t :: 0 <= t < |f.price| ==> !RowComplete(f, names, t)
  {
    var rows := KeptRows(f, names, |f.price|);
    if |rows| > 0 {
      assert rows[0] in rows;
    }
  }

  /**
   * The latest feature row is the last row of the frame whose listed
   * columns are all defined; it is an error exactly when there is none.
   */
  lemma LastCompleteRowIsLatest(f: Frame, names: seq<ColumnName>, t: nat)
    requires WellFormed(f) && forall j :: 0 <= j < |names| ==> names[j] in f.cols
    requires t < |f.price| && RowComplete(f, NameSet(names), t)
    requires forall u :: t < u < |f.price| ==> !RowComplete(f, NameSet(names), u)
    ensures var r := LastCompleteRow(f, names);
      r.Success? && forall j :: 0 <= j < |names| ==> Some(r.value[j]) == f.cols[names[j]][t]
  {
    DropNaLastRow(f, NameSet(names), t);
    var g := DropNa(f, NameSet(names));
    forall j | 0 <= j < |names| ensures f.cols[names[j]][t].Some? {
      assert names[j] in NameSet(names);
    }
  }

  lemma LastCompleteRowFails(f: Frame, names: seq<ColumnName>)
    requires WellFormed(f) && forall j :: 0 <= j < |names| ==> names[j] in f.cols
    ensures LastCompleteRow(f, names).Failure? <==>
      forall t :: 0 <= t < |f.price| ==> !RowComplete(f, NameSet(names), t)
  {
    DropNaEmptyIff(f, NameSet(names));
  }

  // -------------------------------------------------------- row slicing

  /** `iloc[a:b]`. */
  function SliceRows(f: Frame, a: nat, b: nat): (g: Frame)
    requires WellFormed(f) && a <= b <= |f.price|
    ensures WellFormed(g) && g.cols.Keys == f.cols.Keys && |g.price| == b - a
  {
    Frame(f.price[a..b], map c | c in f.cols :: f.cols[c][a..b])
  }

  /** Selecting consecutive rows `lo .. hi - 1` is slicing. */
  lemma SelectInterval<T>(xs: seq<T>, rows: seq<nat>, lo: nat, hi: nat)
    requires lo <= hi <= |xs| && |rows| == hi - lo
    requires forall i :: 0 <= i < |rows| ==> rows[i] == lo + i
    ensures Select(xs, rows) == xs[lo..hi]
  {
  }

  /** When the complete rows are exactly `lo .. hi - 1`, `dropna` is the slice `iloc[lo:hi]`. */
  lemma DropNaInterval(f: Frame, names: set<ColumnName>, lo: nat, hi: nat)
    requires WellFormed(f) && names <= f.cols.Keys && lo <= hi <= |f.price|
    requires forall t :: 0 <= t < |f.price| ==> (RowComplete(f, names, t) <==> lo <= t < hi)
    ensures DropNa(f, names) == SliceRows(f, lo, hi)
  {
    var rows := KeptRows(f, names, |f.price|);
    assert |rows| == hi - lo && forall i :: 0 <= i < |rows| ==> rows[i] == lo + i by {
      KeptRowsInterval(f, names, |f.price|, lo, hi);
    }
    SelectInterval(f.price, rows, lo, hi);
    var kept := map c | c in f.cols :: Select(f.cols[c], rows);
    var sliced := map c | c in f.cols :: f.cols[c][lo..hi];
    forall c | c in f.cols ensures kept[c] == sliced[c] {
      SelectInterval(f.cols[c], rows, lo, hi);
    }
    assert kept == sliced;
  }

  /** Row `i` of a slice is row `a + i` of the frame. */
  lemma SliceRowsAt(f: Frame, g: Frame, a: nat, b: nat, c: ColumnName, i: nat)
    requires WellFormed(f) && a <= b <= |f.price| && g == SliceRows(f, a, b)
    requires c in f.cols && i < b - a
    ensures |g.price| == b - a && c in g.cols && g.cols[c][i] == f.cols[c][a + i]
  {
  }

  /** Stacking two frames with the same columns, one after the other. */
  function ConcatRows(f: Frame, g: Frame): (h: Frame)
    requires WellFormed(f) && WellFormed(g) && f.cols.Keys == g.cols.Keys
    ensures WellFormed(h) && h.cols.Keys == f.cols.Keys && |h.price| == |f.price| + |g.price|
  {
    Frame(f.price + g.price, map c | c in f.cols :: f.cols[c] + g.cols[c])
  }

  /** Cutting a frame at `a` and `b` and stacking the pieces gives the frame back. */
  lemma SliceConcat(f: Frame, a: nat, b: nat)
    requires WellFormed(f) && a <= b <= |f.price|
    ensures ConcatRows(ConcatRows(SliceRows(f, 0, a), SliceRows(f, a, b)), SliceRows(f, b, |f.price|)) == f
  {
    var n := |f.price|;
    var h := ConcatRows(ConcatRows(SliceRows(f, 0, a), SliceRows(f, a, b)), SliceRows(f, b, n));
    SliceThree(f.price, a, b);
    forall c | c in f.cols ensures h.cols[c] == f.cols[c] {
      SliceThree(f.cols[c], a, b);
    }
    assert h.cols == f.cols;
  }

  lemma SliceThree<T>(x: seq<T>, a: nat, b: nat)
    requires a <= b <= |x|
    ensures x[0..a] + x[a..b] + x[b..|x|] == x
  {
    assert x[0..a] + x[a..b] == x[0..b];
  }

  // --------------------------------------------------- numeric matrices

  /** Every row defined in every listed column. */
  predicate Complete(f: Frame, names: seq<ColumnName>)
    requires WellFormed(f)
  {
    (forall j :: 0 <= j < |names| ==> names[j] in f.cols) &&
    forall j, t :: 0 <= j < |names| && 0 <= t < |f.price| ==> f.cols[names[j]][t].Some?
  }

  /** `f[names].values`: row `t` holds the listed columns' values at row `t`. */
  function Matrix(f: Frame, names: seq<ColumnName>): (x: seq<seq<real>>)
    requires WellFormed(f) && Complete(f, names)
    ensures |x| == |f.price|
    ensures forall t :: 0 <= t < |x| ==> |x[t]| == |names|
    ensures forall t, j :: 0 <= t < |x| && 0 <= j < |names| ==> x[t][j] == f.cols[names[j]][t].value
  {
    seq(|f.price|, t requires 0 <= t < |f.price| =>
      seq(|names|, j requires 0 <= j < |names| => f.cols[names[j]][t].value))
  }

  /** `f[name].values` for a column without missing values. */
  function ColumnValues(f: Frame, name: ColumnName): (y: seq<real>)
    requires WellFormed(f) && name in f.cols
    requires forall t :: 0 <= t < |f.price| ==> f.cols[name][t].Some?
    ensures |y| == |f.price| && forall t :: 0 <= t < |y| ==> y[t] == f.cols[name][t].value
  {
    seq(|f.price|, t requires 0 <= t < |f.price| => f.cols[name][t].value)
  }
}
