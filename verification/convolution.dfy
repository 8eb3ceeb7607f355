/**
 * The `blur` workload of bench.cpp: a 3x3 integer convolution with the
 * kernel {{1,2,1},{2,4,2},{1,2,1}} applied to the interior pixels of a
 * grid, each weighted sum divided by 16 (truncating) and added to a total.
 * The border of the output keeps its initial 0.
 */
module Convolution {
  import opened CTypes

  /** A grid of h rows of w values each. */
  predicate IsGrid(g: seq<seq<int>>, h: nat, w: nat)
  {
    |g| == h && forall r :: 0 <= r < h ==> |g[r]| == w
  }

  /** (y, x) is an interior pixel: not in the first or last row or column. */
  predicate Interior(h: nat, w: nat, y: int, x: int)
  {
    1 <= y < h - 1 && 1 <= x < w - 1
  }

  /** Every value of the grid lies in [-bound, bound]. */
  predicate Bounded(g: seq<seq<int>>, h: nat, w: nat, bound: nat)
    requires IsGrid(g, h, w)
  {
    forall r, c :: 0 <= r < h && 0 <= c < w ==> -(bound as int) <= g[r][c] <= bound
  }

  /** The number of interior positions along an axis of length n. */
  function Span(n: int): nat
  {
    if n >= 2 then n - 2 else 0
  }

  /** The contents of a 2-D array, row by row. */
  function Cells(a: array2<int32>): (g: seq<seq<int>>)
    reads a
    ensures IsGrid(g, a.Length0, a.Length1)
    ensures forall r, c :: 0 <= r < a.Length0 && 0 <= c < a.Length1 ==> g[r][c] == a[r, c] as int
  {
    seq(a.Length0, r requires 0 <= r < a.Length0 reads a =>
      seq(a.Length1, c requires 0 <= c < a.Length1 reads a => a[r, c] as int))
  }

  /** Weight of the centre (1) or of an edge (0 or 2) position of the kernel along one axis. */
  function Tent(i: int): int
  {
    if i == 1 then 2 else 1
  }

  /** The kernel {{1,2,1},{2,4,2},{1,2,1}}; it is the outer product of (1,2,1) with itself. */
  function Kernel(r: int, c: int): (weight: int)
    requires 0 <= r < 3 && 0 <= c < 3
    ensures weight == Tent(r) * Tent(c)
  {
    [[1, 2, 1], [2, 4, 2], [1, 2, 1]][r][c]
  }

  /** Sum of the first n weights of kernel row r. */
  function RowWeight(r: int, n: nat): int
    requires 0 <= r < 3 && n <= 3
  {
    if n == 0 then 0 else RowWeight(r, n - 1) + Kernel(r, n - 1)
  }

  /** Sum of the weights of the first m kernel rows. */
  function Weight(m: nat): int
    requires m <= 3
  {
    if m == 0 then 0 else Weight(m - 1) + RowWeight(m - 1, 3)
  }

  /** The weights sum to 16, so dividing by 16 normalises the kernel. */
  lemma KernelSumsTo16()
    ensures Weight(3) == 16
  {
  }

  /** For an interior pixel, every neighbour the kernel touches lies inside the grid. */
  lemma NeighbourhoodInBounds(h: nat, w: nat, y: int, x: int, ky: int, kx: int)
    requires Interior(h, w, y, x) && -1 <= ky <= 1 && -1 <= kx <= 1
    ensures 0 <= y + ky < h && 0 <= x + kx < w
  {
  }

  /**
   * The first n taps of kernel row ky + 1 at pixel (y, x): the sum of
   * g[y + ky][x + kx] * Kernel(ky + 1, kx + 1) for kx from -1 to n - 2.
   */
  function RowTaps(g: seq<seq<int>>, h: nat, w: nat, y: int, x: int, ky: int, n: nat): int
    requires IsGrid(g, h, w) && Interior(h, w, y, x)
    requires -1 <= ky <= 1 && n <= 3
  {
    if n == 0 then 0
    else RowTaps(g, h, w, y, x, ky, n - 1) + g[y + ky][x + n - 2] * Kernel(ky + 1, n - 1)
  }

  /** The taps of the first m kernel rows at pixel (y, x), ky from -1 to m - 2. */
  function Taps(g: seq<seq<int>>, h: nat, w: nat, y: int, x: int, m: nat): int
    requires IsGrid(g, h, w) && Interior(h, w, y, x) && m <= 3
  {
    if m == 0 then 0 else Taps(g, h, w, y, x, m - 1) + RowTaps(g, h, w, y, x, m - 2, 3)
  }

  /** The kernel-weighted sum of the 3x3 neighbourhood of an interior pixel. */
  function Weighted(g: seq<seq<int>>, h: nat, w: nat, y: int, x: int): int
    requires IsGrid(g, h, w) && Interior(h, w, y, x)
  {
    Taps(g, h, w, y, x, 3)
  }

  /** The weighted sum written out term by term. */
  lemma WeightedExpanded(g: seq<seq<int>>, h: nat, w: nat, y: int, x: int)
    requires IsGrid(g, h, w) && Interior(h, w, y, x)
    ensures Weighted(g, h, w, y, x) ==
        g[y - 1][x - 1] + 2 * g[y - 1][x] + g[y - 1][x + 1]
      + 2 * g[y][x - 1] + 4 * g[y][x] + 2 * g[y][x + 1]
      + g[y + 1][x - 1] + 2 * g[y + 1][x] + g[y + 1][x + 1]
  {
    forall ky | -1 <= ky <= 1
      ensures RowTaps(g, h, w, y, x, ky, 3) ==
        Tent(ky + 1) * (g[y + ky][x - 1] + 2 * g[y + ky][x] + g[y + ky][x + 1])
    {
      assert RowTaps(g, h, w, y, x, ky, 1) == Tent(ky + 1) * g[y + ky][x - 1];
      assert RowTaps(g, h, w, y, x, ky, 2) == Tent(ky + 1) * (g[y + ky][x - 1] + 2 * g[y + ky][x]);
    }
    assert Taps(g, h, w, y, x, 1) == RowTaps(g, h, w, y, x, -1, 3);
    assert Taps(g, h, w, y, x, 2) == Taps(g, h, w, y, x, 1) + RowTaps(g, h, w, y, x, 0, 3);
  }

  /** Output pixel (y, x): the truncated weighted sum / 16 inside, 0 on the border. */
  function BlurAt(g: seq<seq<int>>, h: nat, w: nat, y: int, x: int): int
    requires IsGrid(g, h, w) && 0 <= y < h && 0 <= x < w
  {
    if Interior(h, w, y, x) then TruncDiv(Weighted(g, h, w, y, x), 16) else 0
  }

  /** The whole output grid of the blur of g. */
  function Blurred(g: seq<seq<int>>, h: nat, w: nat): (b: seq<seq<int>>)
    requires IsGrid(g, h, w)
    ensures IsGrid(b, h, w)
    ensures forall y, x :: 0 <= y < h && 0 <= x < w && !Interior(h, w, y, x) ==> b[y][x] == 0
  {
    seq(h, y requires 0 <= y < h => seq(w, x requires 0 <= x < w => BlurAt(g, h, w, y, x)))
  }

  /** Sum of a row. */
  function RowTotal(s: seq<int>): int
  {
    if s == [] then 0 else RowTotal(s[..|s| - 1]) + s[|s| - 1]
  }

  /** Sum of all entries of a grid. */
  function Total(g: seq<seq<int>>): int
  {
    if g == [] then 0 else Total(g[..|g| - 1]) + RowTotal(g[|g| - 1])
  }

  /** Weights are non-negative, so a prefix of a kernel row weighs at most the whole row. */
  lemma {:induction false} RowWeightMonotone(r: int, n: nat)
    requires 0 <= r < 3 && n <= 3
    ensures 0 <= RowWeight(r, n) <= RowWeight(r, 3)
    decreases 3 - n
  {
    if n < 3 {
      RowWeightMonotone(r, n + 1);
    }
  }

  /** The weight of the first m rows plus any prefix of row m never exceeds the kernel total of 16. */
  lemma PartialWeightAtMost16(m: nat, n: nat)
    requires m < 3 && n <= 3
    ensures 0 <= Weight(m) && Weight(m) + RowWeight(m, n) <= 16
  {
    RowWeightMonotone(m, n);
    assert Weight(1) == 4 && Weight(2) == 12 && Weight(3) == 16;
  }

  lemma MulBound(p: int, k: int, bound: int)
    requires -bound <= p <= bound && 0 <= k
    ensures -(k * bound) <= p * k <= k * bound
  {
  }

  lemma MulMonotone(a: int, b: int, c: int)
    requires a <= b && 0 <= c
    ensures a * c <= b * c
  {
  }

  /** The first n taps of a kernel row are bounded by that prefix's weight times the pixel bound. */
  lemma {:induction false} RowTapsBound(g: seq<seq<int>>, h: nat, w: nat, y: int, x: int, ky: int, n: nat, bound: nat)
    requires IsGrid(g, h, w) && Interior(h, w, y, x) && -1 <= ky <= 1 && n <= 3
    requires Bounded(g, h, w, bound)
    ensures -(RowWeight(ky + 1, n) * bound) <= RowTaps(g, h, w, y, x, ky, n) <= RowWeight(ky + 1, n) * bound
  {
    if n > 0 {
      RowTapsBound(g, h, w, y, x, ky, n - 1, bound);
      var k := Kernel(ky + 1, n - 1);
      MulBound(g[y + ky][x + n - 2], k, bound);
      assert RowWeight(ky + 1, n) * bound == RowWeight(ky + 1, n - 1) * bound + k * bound;
    }
  }

  /** The taps of the first m kernel rows are bounded by their weight times the pixel bound. */
  lemma {:induction false} TapsBound(g: seq<seq<int>>, h: nat, w: nat, y: int, x: int, m: nat, bound: nat)
    requires IsGrid(g, h, w) && Interior(h, w, y, x) && m <= 3
    requires Bounded(g, h, w, bound)
    ensures -(Weight(m) * bound) <= Taps(g, h, w, y, x, m) <= Weight(m) * bound
  {
    if m > 0 {
      TapsBound(g, h, w, y, x, m - 1, bound);
      RowTapsBound(g, h, w, y, x, m - 2, 3, bound);
      assert Weight(m) * bound == Weight(m - 1) * bound + RowWeight(m - 1, 3) * bound;
    }
  }

  /** Two values bounded by their weights times bound add up to within 16 times bound when the weights do. */
  lemma SumWithinWeights(a: int, b: int, wa: nat, wb: nat, bound: nat)
    requires -(wa * bound) <= a <= wa * bound && -(wb * bound) <= b <= wb * bound
    requires wa + wb <= 16
    ensures -(16 * bound) <= a + b <= 16 * bound
  {
    assert (wa + wb) * bound == wa * bound + wb * bound;
    MulMonotone(wa + wb, 16, bound);
  }

  /**
   * Every partial value of the accumulator `acc` (all taps of the rows
   * before ky and the first n taps of row ky) lies within 16 times the
   * pixel bound; with 16 * bound <= INT32_MAX it never overflows an int.
   */
  lemma AccBound(g: seq<seq<int>>, h: nat, w: nat, y: int, x: int, ky: int, n: nat, bound: nat)
    requires IsGrid(g, h, w) && Interior(h, w, y, x) && -1 <= ky <= 1 && n <= 3
    requires Bounded(g, h, w, bound)
    ensures var acc := Taps(g, h, w, y, x, ky + 1) + RowTaps(g, h, w, y, x, ky, n);
      -(16 * bound) <= acc <= 16 * bound
  {
    TapsBound(g, h, w, y, x, ky + 1, bound);
    RowTapsBound(g, h, w, y, x, ky, n, bound);
    PartialWeightAtMost16(ky + 1, n);
    SumWithinWeights(Taps(g, h, w, y, x, ky + 1), RowTaps(g, h, w, y, x, ky, n),
      Weight(ky + 1), RowWeight(ky + 1, n), bound);
  }

  /** An output pixel is bounded like the input: |BlurAt| <= bound. */
  lemma BlurAtBound(g: seq<seq<int>>, h: nat, w: nat, y: int, x: int, bound: nat)
    requires IsGrid(g, h, w) && 0 <= y < h && 0 <= x < w
    requires Bounded(g, h, w, bound)
    ensures -(bound as int) <= BlurAt(g, h, w, y, x) <= bound
  {
    if Interior(h, w, y, x) {
      AccBound(g, h, w, y, x, 1, 3, bound);
    }
  }

  /** On a uniform grid every interior output pixel equals the input value: the kernel is normalised. */
  lemma UniformPixel(g: seq<seq<int>>, h: nat, w: nat, v: int, y: int, x: int)
    requires IsGrid(g, h, w) && forall r, c :: 0 <= r < h && 0 <= c < w ==> g[r][c] == v
    requires Interior(h, w, y, x)
    ensures BlurAt(g, h, w, y, x) == v
  {
    WeightedExpanded(g, h, w, y, x);
    assert Weighted(g, h, w, y, x) == 16 * v;
  }

  /** The number of interior positions among the first k of an axis of length n. */
  function InteriorBefore(k: int, n: int): nat
  {
    if k <= 1 then 0 else if k <= n - 1 then k - 1 else Span(n)
  }

  /** A row that is v inside and 0 at both ends sums, over its first k entries, to v per interior entry. */
  lemma {:induction false} FramedRowTotal(s: seq<int>, v: int, k: nat)
    requires forall c :: 0 <= c < |s| ==> s[c] == if 1 <= c < |s| - 1 then v else 0
    requires k <= |s|
    ensures RowTotal(s[..k]) == InteriorBefore(k, |s|) * v
  {
    if k > 0 {
      FramedRowTotal(s, v, k - 1);
      assert s[..k][..k - 1] == s[..k - 1];
      var before := InteriorBefore(k - 1, |s|);
      if 1 <= k - 1 < |s| - 1 {
        assert InteriorBefore(k, |s|) == before + 1;
        assert (before + 1) * v == before * v + v;
      } else {
        assert InteriorBefore(k, |s|) == before;
      }
    }
  }

  /** A grid that is v on the interior and 0 on the border sums, over its first k rows, to v per interior pixel. */
  lemma {:induction false} FramedGridTotal(b: seq<seq<int>>, h: nat, w: nat, v: int, k: nat)
    requires IsGrid(b, h, w)
    requires forall r, c :: 0 <= r < h && 0 <= c < w ==> b[r][c] == if Interior(h, w, r, c) then v else 0
    requires k <= h
    ensures Total(b[..k]) == InteriorBefore(k, h) * (Span(w) * v)
  {
    if k > 0 {
      FramedGridTotal(b, h, w, v, k - 1);
      assert b[..k][..k - 1] == b[..k - 1];
      var row := b[k - 1];
      var before := InteriorBefore(k - 1, h);
      assert row[..w] == row;
      if 1 <= k - 1 < h - 1 {
        FramedRowTotal(row, v, w);
        assert InteriorBefore(k, h) == before + 1;
        assert (before + 1) * (Span(w) * v) == before * (Span(w) * v) + Span(w) * v;
      } else {
        FramedRowTotal(row, 0, w);
        assert InteriorBefore(k, h) == before;
      }
    }
  }

  /**
   * Blurring a uniform grid of value v gives v at every interior pixel and
   * 0 on the border, so the output sums to (h - 2) * (w - 2) * v when both
   * sides are at least 3, and to 0 otherwise.
   */
  lemma UniformTotal(g: seq<seq<int>>, h: nat, w: nat, v: int)
    requires IsGrid(g, h, w) && forall r, c :: 0 <= r < h && 0 <= c < w ==> g[r][c] == v
    ensures Total(Blurred(g, h, w)) == Span(h) * Span(w) * v
  {
    var b := Blurred(g, h, w);
    forall r, c | 0 <= r < h && 0 <= c < w
      ensures b[r][c] == if Interior(h, w, r, c) then v else 0
    {
      if Interior(h, w, r, c) {
        UniformPixel(g, h, w, v, r, c);
      }
    }
    FramedGridTotal(b, h, w, v, h);
    assert b[..h] == b;
  }

  function Min(a: int, b: int): int
  {
    if a <= b then a else b
  }

  /**
   * Sum of the entries of b that come before (y, x) in row-major order:
   * all of rows 0 .. y-1 and the first x entries of row y.
   */
  function PrefixTotal(b: seq<seq<int>>, y: nat, x: nat): int
    requires y <= |b|
  {
    Total(b[..y]) + if y < |b| then RowTotal(b[y][..Min(x, |b[y]|)]) else 0
  }

  /** Taking one more entry of row y adds that entry. */
  lemma PrefixStep(b: seq<seq<int>>, y: nat, x: nat)
    requires y < |b| && x < |b[y]|
    ensures PrefixTotal(b, y, x + 1) == PrefixTotal(b, y, x) + b[y][x]
  {
    assert b[y][..x + 1][..x] == b[y][..x];
  }

  /** When the rest of row y is zero, the prefix up to (y, x) is the prefix up to row y + 1. */
  lemma {:induction false} PrefixRowEnd(b: seq<seq<int>>, y: nat, x: nat)
    requires y < |b| && forall c :: x <= c < |b[y]| ==> b[y][c] == 0
    ensures PrefixTotal(b, y, x) == PrefixTotal(b, y + 1, 0)
    decreases |b[y]| - x
  {
    if x < |b[y]| {
      PrefixStep(b, y, x);
      PrefixRowEnd(b, y, x + 1);
    } else {
      assert b[..y + 1][..y] == b[..y];
      assert b[y][..|b[y]|] == b[y];
    }
  }

  /** b is zero on the border and within [-bound, bound] inside: what the blur produces. */
  predicate Framed(b: seq<seq<int>>, h: nat, w: nat, bound: nat)
    requires IsGrid(b, h, w)
  {
    forall r, c :: 0 <= r < h && 0 <= c < w ==>
      if Interior(h, w, r, c) then -(bound as int) <= b[r][c] <= bound else b[r][c] == 0
  }

  /** The first k entries of a framed row sum to at most bound per interior entry among them. */
  lemma {:induction false} FramedRowPrefix(s: seq<int>, bound: nat, k: nat)
    requires forall c :: 0 <= c < |s| ==>
      if 1 <= c < |s| - 1 then -(bound as int) <= s[c] <= bound else s[c] == 0
    requires k <= |s|
    ensures -(InteriorBefore(k, |s|) * bound) <= RowTotal(s[..k]) <= InteriorBefore(k, |s|) * bound
  {
    if k > 0 {
      FramedRowPrefix(s, bound, k - 1);
      assert s[..k][..k - 1] == s[..k - 1];
      var before := InteriorBefore(k - 1, |s|);
      if 1 <= k - 1 < |s| - 1 {
        assert InteriorBefore(k, |s|) == before + 1;
        assert (before + 1) * bound == before * bound + bound;
      } else {
        assert InteriorBefore(k, |s|) == before;
      }
    }
  }

  /** A row of a framed grid sums to at most bound per interior entry, and to 0 on the border. */
  lemma FramedRow(b: seq<seq<int>>, h: nat, w: nat, bound: nat, r: nat)
    requires IsGrid(b, h, w) && Framed(b, h, w, bound) && r < h
    ensures var cap := if 1 <= r < h - 1 then Span(w) * bound else 0;
      -cap <= RowTotal(b[r]) <= cap
  {
    assert b[r][..w] == b[r];
    FramedRowPrefix(b[r], if 1 <= r < h - 1 then bound else 0, w);
  }

  /** Counting position k - 1 adds one row's worth exactly when it is interior. */
  lemma InteriorStep(k: nat, h: nat, rowCap: int)
    requires 0 < k <= h
    ensures InteriorBefore(k, h) * rowCap ==
      InteriorBefore(k - 1, h) * rowCap + if 1 <= k - 1 < h - 1 then rowCap else 0
  {
    if 1 <= k - 1 < h - 1 {
      assert InteriorBefore(k, h) == InteriorBefore(k - 1, h) + 1;
    }
  }

  /** The first k rows of a framed grid sum to at most bound per interior pixel among them. */
  lemma {:induction false} FramedRows(b: seq<seq<int>>, h: nat, w: nat, bound: nat, k: nat)
    requires IsGrid(b, h, w) && Framed(b, h, w, bound) && k <= h
    ensures -(InteriorBefore(k, h) * (Span(w) * bound)) <= Total(b[..k]) <= InteriorBefore(k, h) * (Span(w) * bound)
  {
    if k > 0 {
      var rowCap := Span(w) * bound;
      var before := InteriorBefore(k - 1, h);
      var cap := if 1 <= k - 1 < h - 1 then rowCap else 0;
      FramedRows(b, h, w, bound, k - 1);
      FramedRow(b, h, w, bound, k - 1);
      assert Total(b[..k]) == Total(b[..k - 1]) + RowTotal(b[k - 1]) by {
        assert b[..k][..k - 1] == b[..k - 1];
      }
      InteriorStep(k, h, rowCap);
    }
  }

  /** The first x entries of row y of a framed grid sum to at most bound per interior pixel of that row. */
  lemma FramedRowStart(b: seq<seq<int>>, h: nat, w: nat, bound: nat, y: nat, x: nat)
    requires IsGrid(b, h, w) && Framed(b, h, w, bound) && y < h
    ensures var cap := if 1 <= y < h - 1 then Span(w) * bound else 0;
      -cap <= RowTotal(b[y][..Min(x, w)]) <= cap
  {
    var rowBound := if 1 <= y < h - 1 then bound else 0;
    FramedRowPrefix(b[y], rowBound, Min(x, w));
    MulMonotone(InteriorBefore(Min(x, w), w), Span(w), rowBound);
  }

  lemma MulAssociates(a: int, b: int, c: int)
    ensures a * (b * c) == a * b * c
  {
  }

  /** The counting step behind PrefixBound: the rows before y plus part of row y hold at most Span(h) rows' worth. */
  lemma PrefixCount(before: nat, spanH: nat, rowCap: nat, interior: bool)
    requires if interior then before + 1 <= spanH else before <= spanH
    ensures before * rowCap + (if interior then rowCap else 0) <= spanH * rowCap
  {
    if interior {
      assert (before + 1) * rowCap == before * rowCap + rowCap;
      MulMonotone(before + 1, spanH, rowCap);
    } else {
      MulMonotone(before, spanH, rowCap);
    }
  }

  /** Every row-major prefix of a framed grid sums to at most bound per interior pixel of the grid. */
  lemma PrefixBound(b: seq<seq<int>>, h: nat, w: nat, bound: nat, y: nat, x: nat)
    requires IsGrid(b, h, w) && Framed(b, h, w, bound) && y <= h
    ensures -(Span(h) * Span(w) * bound) <= PrefixTotal(b, y, x) <= Span(h) * Span(w) * bound
  {
    var interior := y < h && 1 <= y < h - 1;
    FramedRows(b, h, w, bound, y);
    if y < h {
      FramedRowStart(b, h, w, bound, y, x);
    }
    var rowCap := Span(w) * bound;
    PrefixCount(InteriorBefore(y, h), Span(h), rowCap, interior);
    MulAssociates(Span(h), Span(w), bound);
    assert -(InteriorBefore(y, h) * rowCap + (if interior then rowCap else 0)) <= PrefixTotal(b, y, x)
      <= InteriorBefore(y, h) * rowCap + (if interior then rowCap else 0);
  }

  /**
   * The two inner loops of `blur` for one interior pixel: the kernel-weighted
   * sum of its 3x3 neighbourhood, accumulated tap by tap in an int.
   */
  method WeightedSum(img: array2<int32>, y: int, x: int, ghost g: seq<seq<int>>, ghost bound: nat) returns (acc: int32)
    requires IsGrid(g, img.Length0, img.Length1) && Interior(img.Length0, img.Length1, y, x)
    requires forall r, c :: 0 <= r < img.Length0 && 0 <= c < img.Length1 ==> g[r][c] == img[r, c] as int
    requires 16 * bound <= INT32_MAX
    requires Bounded(g, img.Length0, img.Length1, bound)
    ensures acc as int == Weighted(g, img.Length0, img.Length1, y, x)
  {
    ghost var H, W := img.Length0, img.Length1;
    acc := 0;
    var ky := -1;
    while ky <= 1
      invariant -1 <= ky <= 2
      invariant acc as int == Taps(g, H, W, y, x, ky + 1)
    {
      var kx := -1;
      while kx <= 1
        invariant -1 <= kx <= 2
        invariant acc as int == Taps(g, H, W, y, x, ky + 1) + RowTaps(g, H, W, y, x, ky, kx + 1)
      {
        NeighbourhoodInBounds(H, W, y, x, ky, kx);
        var pixel, weight := img[y + ky, x + kx], Kernel(ky + 1, kx + 1) as int32;
        assert pixel as int == g[y + ky][x + kx];
        AccBound(g, H, W, y, x, ky, kx + 2, bound);
        MulBound(pixel as int, weight as int, bound);
        acc := acc + pixel * weight;
        kx := kx + 1;
      }
      ky := ky + 1;
    }
  }

  /**
   * One pass of the `x` loop of `blur` over interior row y: each interior
   * pixel of the row gets acc / 16 in `out` and is added to `sum`. Before the
   * pass `out` holds the blurred rows above y and `sum` their total; after it
   * the same holds with row y included.
   */
  method BlurRow(img: array2<int32>, out: array2<int32>, y: int, ghost bound: nat, sum0: int32) returns (sum: int32)
    requires out != img && out.Length0 == img.Length0 && out.Length1 == img.Length1
    requires 1 <= y < img.Length0 - 1
    requires 16 * bound <= INT32_MAX
    requires Span(img.Length0) * Span(img.Length1) * bound <= INT32_MAX
    requires Bounded(Cells(img), img.Length0, img.Length1, bound)
    requires var b := Blurred(Cells(img), img.Length0, img.Length1);
      sum0 as int == PrefixTotal(b, y, 0) &&
      forall r, c :: 0 <= r < out.Length0 && 0 <= c < out.Length1 ==> out[r, c] as int == if r < y then b[r][c] else 0
    modifies out
    ensures var b := Blurred(Cells(img), img.Length0, img.Length1);
      sum as int == PrefixTotal(b, y + 1, 0) &&
      forall r, c :: 0 <= r < out.Length0 && 0 <= c < out.Length1 ==> out[r, c] as int == if r <= y then b[r][c] else 0
  {
    var H, W := img.Length0, img.Length1;
    ghost var b := Blurred(Cells(img), H, W);
    BlurredFramed(Cells(img), H, W, bound);
    sum := sum0;
    var x := 1;
    if W > 0 {
      PrefixStep(b, y, 0);
    }
    while x < W - 1
      invariant 1 <= x && (x == 1 || x <= W - 1)
      invariant sum as int == PrefixTotal(b, y, x)
      invariant forall r, c :: 0 <= r < H && 0 <= c < W ==>
        out[r, c] as int == if r < y || (r == y && c < x) then b[r][c] else 0
    {
      var acc := WeightedSum(img, y, x, Cells(img), bound);
      out[y, x] := TruncDiv(acc as int, 16) as int32;
      PrefixStep(b, y, x);
      PrefixBound(b, H, W, bound, y, x + 1);
      sum := sum + out[y, x];
      x := x + 1;
    }
    PrefixRowEnd(b, y, x);
  }

  /** The blurred image of a bounded image is framed by the same bound. */
  lemma BlurredFramed(g: seq<seq<int>>, h: nat, w: nat, bound: nat)
    requires IsGrid(g, h, w) && Bounded(g, h, w, bound)
    ensures Framed(Blurred(g, h, w), h, w, bound)
  {
    forall r, c | 0 <= r < h && 0 <= c < w && Interior(h, w, r, c)
      ensures -(bound as int) <= Blurred(g, h, w)[r][c] <= bound
    {
      BlurAtBound(g, h, w, r, c, bound);
    }
  }

  /**
   * `blur` on an arbitrary image: the loops of bench.cpp over the interior
   * pixels, writing acc / 16 into `out` and adding it to `sum`. The ghost
   * `bound` on pixel magnitudes rules out int overflow: every intermediate
   * value of `acc`, `out` and `sum` is proved to fit in 32 bits.
   */
  method BlurGrid(img: array2<int32>, ghost bound: nat) returns (out: array2<int32>, sum: int32)
    requires 16 * bound <= INT32_MAX
    requires Span(img.Length0) * Span(img.Length1) * bound <= INT32_MAX
    requires Bounded(Cells(img), img.Length0, img.Length1, bound)
    ensures fresh(out) && out.Length0 == img.Length0 && out.Length1 == img.Length1
    ensures Cells(out) == Blurred(Cells(img), img.Length0, img.Length1)
    ensures sum as int == Total(Cells(out))
  {
    var H, W := img.Length0, img.Length1;
    ghost var b := Blurred(Cells(img), H, W);
    out := new int32[H, W]((r, c) => 0);
    sum := 0;
    if H > 0 {
      PrefixRowEnd(b, 0, 0);
    }
    var y := 1;
    while y < H - 1
      invariant 1 <= y && (y == 1 || y <= H - 1)
      invariant sum as int == PrefixTotal(b, Min(y, H), 0)
      invariant forall r, c :: 0 <= r < H && 0 <= c < W ==> out[r, c] as int == if r < y then b[r][c] else 0
    {
      sum := BlurRow(img, out, y, bound, sum);
      y := y + 1;
    }
    if H >= 2 {
      PrefixRowEnd(b, H - 1, 0);
    }
    assert b[..H] == b;
    forall r | 0 <= r < H
      ensures Cells(out)[r] == b[r]
    {
    }
    assert Cells(out) == b;
  }

  /**
   * `blur(W, H)` of bench.cpp: an H x W image filled with 128, blurred.
   * Only interior pixels are written, each with 128, so the result is
   * (W - 2) * (H - 2) * 128 when both sides are at least 3, and 0 otherwise.
   */
  method Blur(W: int32, H: int32) returns (sum: int32)
    requires 0 <= W && 0 <= H
    requires Span(W as int) * Span(H as int) * 128 <= INT32_MAX
    ensures sum as int == Span(W as int) * Span(H as int) * 128
  {
    var img := new int32[H as int, W as int]((r, c) => 128);
    var out;
    out, sum := BlurGrid(img, 128);
    UniformTotal(Cells(img), H as int, W as int, 128);
  }

  /** The call `blur(1024, 1024)` in `main`: 1022 * 1022 interior pixels of 128 each. */
  method BenchBlur() returns (sum: int32)
    ensures sum == 133_693_952
  {
    sum := Blur(1024, 1024);
  }
}
