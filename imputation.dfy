/** The imputation stage (`clean_data`): drop the cold rows, fill missing
    indicator cells, fill the remaining gaps in every column, drop rows with
    a missing price, and give up when too few rows are left. */
module Imputation {
  import opened Series

  // ---------------------------------------------------------------------
  // Forward and backward fill
  // ---------------------------------------------------------------------

  /** The last defined cell of `s`, if any. */
  function LastDefined(s: Column): Option<real> {
    if s == [] then None
    else if s[|s| - 1].Some? then s[|s| - 1]
    else LastDefined(s[..|s| - 1])
  }

  /** The first defined cell of `s`, if any. */
  function FirstDefined(s: Column): Option<real> {
    if s == [] then None
    else if s[0].Some? then s[0]
    else FirstDefined(s[1..])
  }

  predicate HasDefined(c: Column) {
    exists i | 0 <= i < |c| :: c[i].Some?
  }

  /** `ffill()` on one column: each missing cell takes the value carried
      from the row before it. */
  function FFill(c: Column): (r: Column)
    ensures |r| == |c|
  {
    if c == [] then []
    else
      var p := FFill(c[..|c| - 1]);
      var x := c[|c| - 1];
      p + [if x.Some? || p == [] then x else p[|p| - 1]]
  }

  /** `bfill()` on one column: each missing cell takes the value carried
      from the row after it. */
  function BFill(c: Column): (r: Column)
    ensures |r| == |c|
  {
    if c == [] then []
    else
      var rest := BFill(c[1..]);
      [if c[0].Some? || rest == [] then c[0] else rest[0]] + rest
  }

  /** `fillna(v)` on one column. */
  function FillNone(c: Column, v: Option<real>): (r: Column)
    ensures |r| == |c|
  {
    seq(|c|, i requires 0 <= i < |c| => if c[i].None? then v else c[i])
  }

  /** The last defined cell is defined, lies in `s`, and nothing after it
      is defined; it is missing only when all of `s` is. */
  lemma {:induction false} LastDefinedIsNearest(s: Column)
    ensures LastDefined(s).None? <==> AllNone(s)
    ensures LastDefined(s).Some? ==>
      exists k | 0 <= k < |s| :: s[k] == LastDefined(s) && forall j | k < j < |s| :: s[j].None?
  {
    if s != [] && s[|s| - 1].None? {
      var p := s[..|s| - 1];
      LastDefinedIsNearest(p);
      if LastDefined(p).Some? {
        var k :| 0 <= k < |p| && p[k] == LastDefined(p) && forall j | k < j < |p| :: p[j].None?;
        assert s[k] == p[k];
        assert forall j | k < j < |s| :: s[j].None? by {
          forall j | k < j < |s| ensures s[j].None? {
            if j < |p| { assert s[j] == p[j]; }
          }
        }
      } else {
        assert AllNone(s) by {
          forall j | 0 <= j < |s| ensures s[j].None? {
            if j < |p| { assert s[j] == p[j]; }
          }
        }
      }
    }
  }

  /** The first defined cell is defined, lies in `s`, and nothing before it
      is defined; it is missing only when all of `s` is. */
  lemma {:induction false} FirstDefinedIsNearest(s: Column)
    ensures FirstDefined(s).None? <==> AllNone(s)
    ensures FirstDefined(s).Some? ==>
      exists k | 0 <= k < |s| :: s[k] == FirstDefined(s) && forall j | 0 <= j < k :: s[j].None?
  {
    if s != [] && s[0].None? {
      var t := s[1..];
      FirstDefinedIsNearest(t);
      if FirstDefined(t).Some? {
        var k :| 0 <= k < |t| && t[k] == FirstDefined(t) && forall j | 0 <= j < k :: t[j].None?;
        assert s[k + 1] == t[k];
        assert forall j | 0 <= j < k + 1 :: s[j].None? by {
          forall j | 0 <= j < k + 1 ensures s[j].None? {
            if j > 0 { assert s[j] == t[j - 1]; }
          }
        }
      } else {
        assert AllNone(s) by {
          forall j | 0 <= j < |s| ensures s[j].None? {
            if j > 0 { assert s[j] == t[j - 1]; }
          }
        }
      }
    }
  }

  /** Forward fill gives row `i` the nearest defined cell at or before it. */
  lemma {:induction false} FFillNearest(c: Column, i: nat)
    requires i < |c|
    ensures FFill(c)[i] == LastDefined(c[..i + 1])
  {
    var p := c[..|c| - 1];
    if i < |c| - 1 {
      FFillNearest(p, i);
      assert p[..i + 1] == c[..i + 1];
    } else if i > 0 {
      FFillNearest(p, i - 1);
      assert p[..i] == c[..i + 1][..i];
    } else {
      assert c[..i + 1] == [c[0]];
    }
  }

  /** Backward fill gives row `i` the nearest defined cell at or after it. */
  lemma {:induction false} BFillNearest(c: Column, i: nat)
    requires i < |c|
    ensures BFill(c)[i] == FirstDefined(c[i..])
  {
    var rest := BFill(c[1..]);
    assert BFill(c) == [if c[0].Some? || rest == [] then c[0] else rest[0]] + rest;
    if i > 0 {
      BFillNearest(c[1..], i - 1);
      assert BFill(c)[i] == rest[i - 1];
      assert c[1..][i - 1..] == c[i..];
    } else {
      assert c[0..] == c;
      if |c| > 1 {
        BFillNearest(c[1..], 0);
        assert c[1..][0..] == c[1..];
      }
    }
  }

  /** Forward fill leaves defined cells as they are; a missing cell gets the
      nearest earlier defined value, and stays missing when there is none. */
  lemma FFillFills(c: Column, i: nat)
    requires i < |c|
    ensures c[i].Some? ==> FFill(c)[i] == c[i]
    ensures c[i].None? && FFill(c)[i].Some? ==>
      exists k | 0 <= k < i :: c[k] == FFill(c)[i] && forall j | k < j <= i :: c[j].None?
    ensures FFill(c)[i].None? <==> forall j | 0 <= j <= i :: c[j].None?
  {
    FFillNearest(c, i);
    var s := c[..i + 1];
    LastDefinedIsNearest(s);
    assert forall j | 0 <= j <= i :: s[j] == c[j];
    if c[i].None? && FFill(c)[i].Some? {
      var k :| 0 <= k < |s| && s[k] == LastDefined(s) && forall j | k < j < |s| :: s[j].None?;
      assert k < i;
      assert c[k] == FFill(c)[i];
    }
  }

  /** Backward fill leaves defined cells as they are and gives a missing
      cell the nearest later defined value, if there is one. */
  lemma BFillFills(c: Column, i: nat)
    requires i < |c|
    ensures c[i].Some? ==> BFill(c)[i] == c[i]
    ensures BFill(c)[i].None? <==> forall j | i <= j < |c| :: c[j].None?
  {
    BFillNearest(c, i);
    var s := c[i..];
    FirstDefinedIsNearest(s);
    assert forall j | i <= j < |c| :: s[j - i] == c[j];
  }

  /** After a forward fill and a backward fill, a column with at least one
      defined cell has no missing cell left, and one without any stays
      entirely missing. Every cell that was defined keeps its value. */
  lemma FillGapsComplete(c: Column)
    ensures HasDefined(c) ==> AllSome(BFill(FFill(c)))
    ensures !HasDefined(c) ==> AllNone(BFill(FFill(c)))
    ensures forall i | 0 <= i < |c| && c[i].Some? :: BFill(FFill(c))[i] == c[i]
  {
    var f := FFill(c);
    forall i | 0 <= i < |c| && c[i].Some? ensures BFill(f)[i] == c[i] {
      FFillFills(c, i);
      BFillFills(f, i);
    }
    if HasDefined(c) {
      var k :| 0 <= k < |c| && c[k].Some?;
      FFillFills(c, |c| - 1);
      forall i | 0 <= i < |c| ensures BFill(f)[i].Some? {
        BFillFills(f, i);
      }
    } else {
      forall i | 0 <= i < |c| ensures BFill(f)[i].None? {
        FFillFills(c, i);
        BFillFills(f, i);
        forall j | i <= j < |c| ensures f[j].None? {
          FFillFills(c, j);
        }
      }
    }
  }

  /** A column with no missing cell is left as it is by every fill. */
  lemma FillsKeepComplete(c: Column, v: Option<real>)
    requires AllSome(c)
    ensures FFill(c) == c && BFill(c) == c && FillNone(c, v) == c
  {
    forall i | 0 <= i < |c| ensures FFill(c)[i] == c[i] && BFill(c)[i] == c[i] {
      FFillFills(c, i);
      BFillFills(c, i);
    }
  }

  // ---------------------------------------------------------------------
  // Median
  // ---------------------------------------------------------------------

  /** The defined values of a column, in row order (`skipna=True`). */
  function DefinedValues(c: Column): seq<real> {
    if c == [] then []
    else (if c[0].Some? then [c[0].value] else []) + DefinedValues(c[1..])
  }

  predicate Sorted(s: seq<real>) {
    forall i, j | 0 <= i < j < |s| :: s[i] <= s[j]
  }

  function Insert(x: real, s: seq<real>): seq<real> {
    if s == [] || x <= s[0] then [x] + s else [s[0]] + Insert(x, s[1..])
  }

  lemma {:induction false} InsertPermutes(x: real, s: seq<real>)
    ensures multiset(Insert(x, s)) == multiset(s) + multiset{x}
  {
    if s != [] && x > s[0] {
      InsertPermutes(x, s[1..]);
      assert s == [s[0]] + s[1..];
    }
  }

  lemma {:induction false} InsertBounded(x: real, s: seq<real>, v: real)
    requires v <= x && forall k | 0 <= k < |s| :: v <= s[k]
    ensures forall k | 0 <= k < |Insert(x, s)| :: v <= Insert(x, s)[k]
  {
    if s != [] && x > s[0] {
      InsertBounded(x, s[1..], v);
    }
  }

  lemma {:induction false} InsertSorted(x: real, s: seq<real>)
    requires Sorted(s)
    ensures Sorted(Insert(x, s))
  {
    if s != [] && x > s[0] {
      var t := s[1..];
      InsertSorted(x, t);
      InsertBounded(x, t, s[0]);
      var r := Insert(x, t);
      forall a, b | 0 <= a < b < |r| + 1 ensures ([s[0]] + r)[a] <= ([s[0]] + r)[b] {
        assert ([s[0]] + r)[b] == r[b - 1];
        if a > 0 {
          assert ([s[0]] + r)[a] == r[a - 1];
        }
      }
    }
  }

  function Sort(s: seq<real>): seq<real> {
    if s == [] then [] else Insert(s[0], Sort(s[1..]))
  }

  /** Insertion sort returns the values it was given, in ascending order. */
  lemma {:induction false} SortSorted(s: seq<real>)
    ensures Sorted(Sort(s)) && multiset(Sort(s)) == multiset(s)
  {
    if s != [] {
      SortSorted(s[1..]);
      InsertSorted(s[0], Sort(s[1..]));
      InsertPermutes(s[0], Sort(s[1..]));
      assert s == [s[0]] + s[1..];
    }
  }

  /** The middle of a sorted sequence: its middle element, or the mean of
      the two middle ones when its length is even. */
  function Middle(s: seq<real>): real
    requires s != []
  {
    if |s| % 2 == 1 then s[|s| / 2] else (s[|s| / 2 - 1] + s[|s| / 2]) / 2.0
  }

  /** The middle of a sorted sequence lies between its two central elements
      (the same element when the length is odd). */
  lemma MiddleBetween(s: seq<real>)
    requires s != [] && Sorted(s)
    ensures s[(|s| - 1) / 2] <= Middle(s) <= s[|s| / 2]
  {
  }

  /** `median(skipna=True)`: the middle of the defined values, missing when
      no cell is defined. */
  function Median(c: Column): Option<real> {
    var s := Sort(DefinedValues(c));
    if s == [] then None else Some(Middle(s))
  }

  lemma {:induction false} DefinedValuesAreCells(c: Column)
    ensures forall x | x in DefinedValues(c) :: Some(x) in c
    ensures DefinedValues(c) == [] <==> !HasDefined(c)
  {
    if c != [] {
      DefinedValuesAreCells(c[1..]);
      if HasDefined(c) && c[0].None? {
        var k :| 0 <= k < |c| && c[k].Some?;
        assert c[1..][k - 1] == c[k];
      }
      if HasDefined(c[1..]) {
        var k :| 0 <= k < |c[1..]| && c[1..][k].Some?;
        assert c[k + 1] == c[1..][k];
      }
    }
  }

  /** The median exists exactly when some cell is defined, and then it lies
      between two defined cells of the column. */
  lemma MedianBetween(c: Column)
    ensures Median(c).Some? <==> HasDefined(c)
    ensures Median(c).Some? ==>
      exists lo, hi | Some(lo) in c && Some(hi) in c :: lo <= Median(c).value <= hi
  {
    var d := DefinedValues(c);
    DefinedValuesAreCells(c);
    SortSorted(d);
    var s := Sort(d);
    if s != [] {
      MiddleBetween(s);
      var a, b := s[(|s| - 1) / 2], s[|s| / 2];
      assert a in multiset(d) && b in multiset(d) by {
        assert a in multiset(s) && b in multiset(s);
      }
      assert Some(a) in c && Some(b) in c;
    } else {
      assert multiset(d) == multiset{};
    }
  }

  // ---------------------------------------------------------------------
  // The whole stage
  // ---------------------------------------------------------------------

  function FFillAll(cols: seq<Column>): (r: seq<Column>)
    ensures |r| == |cols|
  {
    seq(|cols|, j requires 0 <= j < |cols| => FFill(cols[j]))
  }

  /** Every column, each missing cell replaced by the column's median. */
  function MedianFilled(cols: seq<Column>): (r: seq<Column>)
    ensures |r| == |cols|
  {
    seq(|cols|, j requires 0 <= j < |cols| => FillNone(cols[j], Median(cols[j])))
  }

  /** `ffill().bfill()` on every column. */
  function FillGaps(cols: seq<Column>): (r: seq<Column>)
    ensures |r| == |cols|
  {
    seq(|cols|, j requires 0 <= j < |cols| => BFill(FFill(cols[j])))
  }

  function Count(keep: seq<bool>): nat {
    if keep == [] then 0 else (if keep[0] then 1 else 0) + Count(keep[1..])
  }

  /** The elements of `s` whose flag in `keep` is set, in order. */
  function Keep<T>(s: seq<T>, keep: seq<bool>): (r: seq<T>)
    requires |keep| == |s|
    ensures |r| == Count(keep)
  {
    if s == [] then []
    else (if keep[0] then [s[0]] else []) + Keep(s[1..], keep[1..])
  }

  lemma {:induction false} KeepAllOrNothing<T>(s: seq<T>, keep: seq<bool>)
    requires |keep| == |s|
    ensures (forall i | 0 <= i < |s| :: keep[i]) ==> Keep(s, keep) == s
    ensures (forall i | 0 <= i < |s| :: !keep[i]) ==> Keep(s, keep) == []
  {
    if s != [] {
      KeepAllOrNothing(s[1..], keep[1..]);
      assert forall i | 0 <= i < |s| - 1 :: keep[1..][i] == keep[i + 1];
    }
  }

  /** Whether row `i` has every price cell defined. */
  predicate PricesDefined(f: Frame, i: nat)
    requires f.WellFormed() && i < f.Rows()
  {
    forall j | 0 <= j < |f.prices| :: f.prices[j][i].Some?
  }

  function PriceMask(f: Frame): (m: seq<bool>)
    requires f.WellFormed()
    ensures |m| == f.Rows()
  {
    seq(f.Rows(), i requires 0 <= i < f.Rows() => PricesDefined(f, i))
  }

  /** `dropna(subset=price_cols)`. */
  function DropMissingPrices(f: Frame): (h: Frame)
    requires f.WellFormed()
    ensures h.WellFormed() && |h.prices| == |f.prices| && |h.inds| == |f.inds|
  {
    var m := PriceMask(f);
    Frame(Keep(f.ts, m),
          seq(|f.prices|, j requires 0 <= j < |f.prices| => Keep(f.prices[j], m)),
          seq(|f.inds|, j requires 0 <= j < |f.inds| => Keep(f.inds[j], m)))
  }

  /** The frame after the fills, before the price check (steps 1 to 4). */
  function Filled(f: Frame, minRolling: nat): (g: Frame)
    requires f.WellFormed()
    ensures g.WellFormed()
    ensures var d := DropFirst(f, minRolling);
      g.ts == d.ts && |g.prices| == |d.prices| && |g.inds| == |d.inds|
  {
    var d := DropFirst(f, minRolling);
    Frame(d.ts, FillGaps(d.prices), FillGaps(MedianFilled(FFillAll(d.inds))))
  }

  /** What `clean_data` returns. */
  function CleanSpec(f: Frame, minRolling: nat, minRows: nat): Frame
    requires f.WellFormed()
  {
    var h := DropMissingPrices(Filled(f, minRolling));
    if h.Rows() < minRows then EmptyFrame else h
  }

  /** The median loop of `clean_data`: each indicator column in turn is
      replaced by itself with its missing cells set to its median. */
  method FillMedians(cols: seq<Column>) returns (r: seq<Column>)
    ensures r == MedianFilled(cols)
  {
    r := cols;
    var j := 0;
    while j < |r|
      invariant |r| == |cols| && j <= |cols|
      invariant forall k | 0 <= k < j :: r[k] == FillNone(cols[k], Median(cols[k]))
      invariant forall k | j <= k < |cols| :: r[k] == cols[k]
    {
      var m := Median(r[j]);
      r := r[j := FillNone(r[j], m)];
      j := j + 1;
    }
  }

  /** `clean_data(df, ind_cols, price_cols, min_rolling, min_rows)` with the
      price columns and indicator columns of `f`. */
  method CleanData(f: Frame, minRolling: nat, minRows: nat) returns (r: Frame)
    requires f.WellFormed()
    ensures r == CleanSpec(f, minRolling, minRows)
  {
    var d := DropFirst(f, minRolling);
    var inds := FFillAll(d.inds);
    inds := FillMedians(inds);
    var g := Frame(d.ts, FillGaps(d.prices), FillGaps(inds));
    var h := DropMissingPrices(g);
    if h.Rows() < minRows {
      r := EmptyFrame;
    } else {
      r := h;
    }
  }

  // ---------------------------------------------------------------------
  // What the stage guarantees
  // ---------------------------------------------------------------------

  /** After the fills, an indicator column is complete when the column had
      a defined cell in the retained rows and entirely missing otherwise,
      and every defined cell keeps its value. */
  lemma IndicatorFill(c: Column)
    ensures var r := BFill(FFill(FillNone(FFill(c), Median(FFill(c)))));
      |r| == |c| &&
      (HasDefined(c) ==> AllSome(r)) && (!HasDefined(c) ==> AllNone(r)) &&
      (forall i | 0 <= i < |c| && c[i].Some? :: r[i] == c[i])
  {
    var f := FFill(c);
    var m := FillNone(f, Median(f));
    forall i | 0 <= i < |c| && c[i].Some? ensures m[i] == c[i] {
      FFillFills(c, i);
    }
    if HasDefined(c) {
      var k :| 0 <= k < |c| && c[k].Some?;
      FFillFills(c, k);
      assert HasDefined(m);
    } else {
      assert !HasDefined(f) by {
        forall i | 0 <= i < |c| ensures f[i].None? {
          FFillFills(c, i);
        }
      }
      MedianBetween(f);
      assert !HasDefined(m);
    }
    FillGapsComplete(m);
  }

  /** The filled frame: each price column is either complete or, when it
      had no defined cell in the retained rows, entirely missing; indicator
      columns likewise; defined cells keep their values. */
  lemma FilledShape(f: Frame, minRolling: nat)
    requires f.WellFormed()
    ensures var d := DropFirst(f, minRolling);
      var g := Filled(f, minRolling);
      g.ts == d.ts && |g.prices| == |d.prices| && |g.inds| == |d.inds| &&
      (forall j | 0 <= j < |d.prices| ::
        (HasDefined(d.prices[j]) ==> AllSome(g.prices[j])) &&
        (!HasDefined(d.prices[j]) ==> AllNone(g.prices[j])) &&
        (forall i | 0 <= i < d.Rows() && d.prices[j][i].Some? :: g.prices[j][i] == d.prices[j][i])) &&
      (forall j | 0 <= j < |d.inds| ::
        (HasDefined(d.inds[j]) ==> AllSome(g.inds[j])) &&
        (!HasDefined(d.inds[j]) ==> AllNone(g.inds[j])) &&
        (forall i | 0 <= i < d.Rows() && d.inds[j][i].Some? :: g.inds[j][i] == d.inds[j][i]))
  {
    var d := DropFirst(f, minRolling);
    var g := Filled(f, minRolling);
    forall j | 0 <= j < |d.prices|
      ensures (HasDefined(d.prices[j]) ==> AllSome(g.prices[j])) &&
        (!HasDefined(d.prices[j]) ==> AllNone(g.prices[j])) &&
        (forall i | 0 <= i < d.Rows() && d.prices[j][i].Some? :: g.prices[j][i] == d.prices[j][i])
    {
      FillGapsComplete(d.prices[j]);
    }
    forall j | 0 <= j < |d.inds|
      ensures (HasDefined(d.inds[j]) ==> AllSome(g.inds[j])) &&
        (!HasDefined(d.inds[j]) ==> AllNone(g.inds[j])) &&
        (forall i | 0 <= i < d.Rows() && d.inds[j][i].Some? :: g.inds[j][i] == d.inds[j][i])
    {
      assert g.inds[j] == BFill(FFill(FillNone(FFill(d.inds[j]), Median(FFill(d.inds[j])))));
      IndicatorFill(d.inds[j]);
    }
  }

  /** Every retained price column has a defined cell. */
  predicate PricesPresent(d: Frame) {
    forall j | 0 <= j < |d.prices| :: HasDefined(d.prices[j])
  }

  /** Dropping rows with a missing price removes either no row or every
      row: after the fills, a price column is missing somewhere only when it
      is missing everywhere. */
  lemma DropIsAllOrNothing(f: Frame, minRolling: nat)
    requires f.WellFormed()
    ensures var d := DropFirst(f, minRolling);
      var g := Filled(f, minRolling);
      var h := DropMissingPrices(g);
      if PricesPresent(d) then h == g else h.Rows() == 0
  {
    var d := DropFirst(f, minRolling);
    var g := Filled(f, minRolling);
    var m := PriceMask(g);
    FilledShape(f, minRolling);
    var h := DropMissingPrices(g);
    if PricesPresent(d) {
      assert forall i | 0 <= i < |m| :: m[i];
      KeepAllOrNothing(g.ts, m);
      forall j | 0 <= j < |g.prices| ensures h.prices[j] == g.prices[j] {
        KeepAllOrNothing(g.prices[j], m);
      }
      forall j | 0 <= j < |g.inds| ensures h.inds[j] == g.inds[j] {
        KeepAllOrNothing(g.inds[j], m);
      }
    } else {
      var j :| 0 <= j < |d.prices| && !HasDefined(d.prices[j]);
      assert forall i | 0 <= i < |m| :: !m[i] by {
        forall i | 0 <= i < |m| ensures !m[i] {
          assert g.prices[j][i].None?;
        }
      }
      KeepAllOrNothing(g.ts, m);
    }
  }

  /** The result is empty, or it holds at least `minRows` rows, which are the
      input rows from position `minRolling` on, all of them, in order. */
  lemma CleanShape(f: Frame, minRolling: nat, minRows: nat)
    requires f.WellFormed()
    ensures var r := CleanSpec(f, minRolling, minRows);
      r.WellFormed() &&
      (r.Rows() == 0 ||
       (minRolling <= f.Rows() && r.Rows() >= minRows && r.Rows() == f.Rows() - minRolling &&
        r.ts == f.ts[minRolling..] && |r.prices| == |f.prices| && |r.inds| == |f.inds|))
  {
    DropIsAllOrNothing(f, minRolling);
  }

  /** The result is non-empty exactly when at least `max(minRows, 1)` rows
      follow the first `minRolling` and every price column has a defined
      cell among them. */
  lemma CleanNonEmpty(f: Frame, minRolling: nat, minRows: nat)
    requires f.WellFormed()
    ensures CleanSpec(f, minRolling, minRows).Rows() > 0 <==>
      (minRolling + minRows <= f.Rows() && minRolling < f.Rows() &&
       PricesPresent(DropFirst(f, minRolling)))
  {
    DropIsAllOrNothing(f, minRolling);
    FilledShape(f, minRolling);
  }

  /** A non-empty result has no missing price cell; each of its indicator
      columns is complete unless that column had no defined cell at all in
      the retained rows; and every retained cell that was defined keeps its
      value. */
  lemma CleanComplete(f: Frame, minRolling: nat, minRows: nat)
    requires f.WellFormed()
    requires CleanSpec(f, minRolling, minRows).Rows() > 0
    ensures var r := CleanSpec(f, minRolling, minRows);
      var d := DropFirst(f, minRolling);
      r.WellFormed() && r.Rows() == d.Rows() && |r.prices| == |d.prices| && |r.inds| == |d.inds| &&
      (forall j | 0 <= j < |r.prices| :: AllSome(r.prices[j])) &&
      (forall j | 0 <= j < |r.inds| :: HasDefined(d.inds[j]) ==> AllSome(r.inds[j])) &&
      (forall j, i | 0 <= j < |d.prices| && 0 <= i < d.Rows() && d.prices[j][i].Some? ::
         r.prices[j][i] == d.prices[j][i]) &&
      (forall j, i | 0 <= j < |d.inds| && 0 <= i < d.Rows() && d.inds[j][i].Some? ::
         r.inds[j][i] == d.inds[j][i])
  {
    DropIsAllOrNothing(f, minRolling);
    FilledShape(f, minRolling);
  }

  /** When every retained cell is already defined, cleaning changes nothing:
      the result is exactly the input without its first `minRolling` rows,
      provided enough rows are left. */
  lemma CleanOfComplete(f: Frame, minRolling: nat, minRows: nat)
    requires f.WellFormed() && minRolling < f.Rows() && minRolling + minRows <= f.Rows()
    requires var d := DropFirst(f, minRolling);
      (forall j | 0 <= j < |d.prices| :: AllSome(d.prices[j])) &&
      (forall j | 0 <= j < |d.inds| :: AllSome(d.inds[j]))
    ensures CleanSpec(f, minRolling, minRows) == DropFirst(f, minRolling)
  {
    var d := DropFirst(f, minRolling);
    var g := Filled(f, minRolling);
    forall j | 0 <= j < |d.prices| ensures g.prices[j] == d.prices[j] {
      FillsKeepComplete(d.prices[j], None);
    }
    forall j | 0 <= j < |d.inds| ensures g.inds[j] == d.inds[j] {
      var c := d.inds[j];
      FillsKeepComplete(c, Median(c));
    }
    assert g == d;
    assert PricesPresent(d) by {
      forall j | 0 <= j < |d.prices| ensures HasDefined(d.prices[j]) {
        assert d.prices[j][0].Some?;
      }
    }
    DropIsAllOrNothing(f, minRolling);
  }
}
