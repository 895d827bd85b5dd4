/** Cells, columns and tables shared by every stage of the candle pipeline.

    A table is kept column by column, as the pipeline treats it: a timestamp
    column (milliseconds since the epoch, never missing), the price columns
    (open, high, low, close, volume) and the indicator columns. A cell that
    pandas would hold as NaN is `None`. */
module Series {

  datatype Option<T> = None | Some(value: T)

  /** One column of a table; `None` is a missing cell. */
  type Column = seq<Option<real>>

  predicate AllSome(c: Column) {
    forall i | 0 <= i < |c| :: c[i].Some?
  }

  predicate AllNone(c: Column) {
    forall i | 0 <= i < |c| :: c[i].None?
  }

  /** A column with every cell defined. */
  function Lift(xs: seq<real>): (r: Column)
    ensures |r| == |xs| && AllSome(r)
  {
    seq(|xs|, i requires 0 <= i < |xs| => Some(xs[i]))
  }

  function Sum(xs: seq<real>): real {
    if xs == [] then 0.0 else xs[0] + Sum(xs[1..])
  }

  /** The last `cap` elements of `s`, or all of `s` when it is no longer
      (`s.iloc[-cap:]` under the guard `len(s) > cap`). */
  function Last<T>(s: seq<T>, cap: nat): seq<T> {
    if |s| > cap then s[|s| - cap..] else s
  }

  lemma LastShape<T>(s: seq<T>, cap: nat)
    ensures |Last(s, cap)| == if |s| < cap then |s| else cap
    ensures Last(s, cap) == s[|s| - |Last(s, cap)|..]
  {
  }

  /** Evicting after every append keeps exactly the newest `cap` elements of
      everything ever appended. */
  lemma {:induction false} LastAppend<T>(s: seq<T>, x: T, cap: nat)
    ensures Last(Last(s, cap) + [x], cap) == Last(s + [x], cap)
  {
    var t := Last(s, cap);
    if |s| > cap {
      assert t == s[|s| - cap..];
      assert t + [x] == (s + [x])[|s| - cap..];
      if |t + [x]| > cap {
        assert (t + [x])[|t + [x]| - cap..] == (s + [x])[|s + [x]| - cap..];
      }
    }
  }

  datatype Frame = Frame(ts: seq<int>, prices: seq<Column>, inds: seq<Column>)
  {
    function Rows(): nat { |ts| }

    predicate IsEmpty() { |ts| == 0 }

    /** Every column has one cell per row. */
    predicate WellFormed() {
      (forall j | 0 <= j < |prices| :: |prices[j]| == |ts|) &&
      (forall j | 0 <= j < |inds| :: |inds[j]| == |ts|)
    }
  }

  /** The table pandas returns as `pd.DataFrame()`: no rows and no columns. */
  const EmptyFrame: Frame := Frame([], [], [])

  function SliceCols(cols: seq<Column>, lo: nat, hi: nat): (r: seq<Column>)
    requires forall j | 0 <= j < |cols| :: lo <= hi <= |cols[j]|
    ensures |r| == |cols|
    ensures forall j | 0 <= j < |cols| :: r[j] == cols[j][lo..hi]
  {
    seq(|cols|, j requires 0 <= j < |cols| => cols[j][lo..hi])
  }

  /** Rows `lo` to `hi` (exclusive) of a table. */
  function Slice(f: Frame, lo: nat, hi: nat): (r: Frame)
    requires f.WellFormed() && lo <= hi <= f.Rows()
    ensures r.WellFormed() && r.Rows() == hi - lo
  {
    Frame(f.ts[lo..hi], SliceCols(f.prices, lo, hi), SliceCols(f.inds, lo, hi))
  }

  /** `f.iloc[k:]`: everything after the first `k` rows, nothing when `k`
      exceeds the row count. */
  function DropFirst(f: Frame, k: nat): (r: Frame)
    requires f.WellFormed()
    ensures r.WellFormed()
    ensures r.Rows() == if k <= f.Rows() then f.Rows() - k else 0
    ensures |r.prices| == |f.prices| && |r.inds| == |f.inds|
  {
    if k <= f.Rows() then Slice(f, k, f.Rows()) else Slice(f, f.Rows(), f.Rows())
  }

  /** `f.iloc[-cap:]` under the guard `len(f) > cap`. */
  function TakeLast(f: Frame, cap: nat): (r: Frame)
    requires f.WellFormed()
    ensures r.WellFormed()
    ensures |r.prices| == |f.prices| && |r.inds| == |f.inds|
  {
    if f.Rows() > cap then Slice(f, f.Rows() - cap, f.Rows()) else f
  }

  /** Truncation keeps at most `cap` rows, and they are the newest rows of
      the table, in order, with every cell as it was. */
  lemma TakeLastKeepsNewest(f: Frame, cap: nat)
    requires f.WellFormed()
    ensures var r := TakeLast(f, cap);
      var k := f.Rows() - r.Rows();
      r.Rows() == (if f.Rows() < cap then f.Rows() else cap) &&
      r.ts == f.ts[k..] &&
      (forall j, i | 0 <= j < |f.prices| && 0 <= i < r.Rows() :: r.prices[j][i] == f.prices[j][k + i]) &&
      (forall j, i | 0 <= j < |f.inds| && 0 <= i < r.Rows() :: r.inds[j][i] == f.inds[j][k + i])
  {
    if f.Rows() <= cap {
      assert f.ts[0..] == f.ts;
    }
  }
}
