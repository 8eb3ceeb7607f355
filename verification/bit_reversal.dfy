/**
 * The bit-reversal permutation that opens the radix-2 FFT of bench.cpp:
 * position i receives the sample from the position whose log2(N)-bit
 * binary representation is that of i reversed. The loop keeps the
 * reversed counter j up to date by a "carry from the top" while loop and
 * swaps x[i] with x[j] when i < j.
 */
module BitReversal {

  function Pow2(k: nat): (p: nat)
    ensures p >= 1
  {
    if k == 0 then 1 else 2 * Pow2(k - 1)
  }

  /** Bit t of i (bit 0 is the least significant). */
  function Bit(i: nat, t: nat): (b: nat)
    ensures b < 2
  {
    if t == 0 then i % 2 else Bit(i / 2, t - 1)
  }

  /**
   * The `bits`-bit reversal of i: bit t of i (t < bits) becomes bit
   * bits-1-t of the result; bits of i at or above `bits` are ignored.
   */
  function Rev(i: nat, bits: nat): (r: nat)
    ensures r < Pow2(bits)
  {
    if bits == 0 then 0
    else (if i % 2 == 1 then Pow2(bits - 1) else 0) + Rev(i / 2, bits - 1)
  }

  /** Reversing one more bit shifts the old reversal up and appends bit `bits` of i at the bottom. */
  lemma {:induction false} RevSnoc(i: nat, bits: nat)
    ensures Rev(i, bits + 1) == 2 * Rev(i, bits) + Bit(i, bits)
  {
    if bits > 0 {
      RevSnoc(i / 2, bits - 1);
    }
  }

  /** Rev reverses bit order: bit t of the reversal is bit bits-1-t of i. */
  lemma {:induction false} RevBit(i: nat, bits: nat, t: nat)
    requires t < bits
    ensures Bit(Rev(i, bits), t) == Bit(i, bits - 1 - t)
  {
    var low := Bit(i, bits - 1);
    var high := Rev(i, bits - 1);
    RevSnoc(i, bits - 1);
    assert Rev(i, bits) == 2 * high + low;
    assert (2 * high + low) % 2 == low && (2 * high + low) / 2 == high;
    if t > 0 {
      RevBit(i, bits - 1, t - 1);
    }
  }

  /** Bits at or above position `bits` do not affect the reversal. */
  lemma {:induction false} RevIgnoresHighBits(y: nat, c: nat, bits: nat)
    ensures Rev(y + c * Pow2(bits), bits) == Rev(y, bits)
  {
    if bits > 0 {
      var high := c * Pow2(bits - 1);
      assert c * Pow2(bits) == 2 * high;
      assert (y + 2 * high) % 2 == y % 2;
      assert (y + 2 * high) / 2 == y / 2 + high;
      RevIgnoresHighBits(y / 2, c, bits - 1);
    }
  }

  /** Below a value smaller than 2^bits, bit `bits` of y + c * 2^bits is the parity of c. */
  lemma {:induction false} BitAbove(y: nat, c: nat, bits: nat)
    requires y < Pow2(bits)
    ensures Bit(y + c * Pow2(bits), bits) == c % 2
  {
    if bits > 0 {
      var high := c * Pow2(bits - 1);
      assert c * Pow2(bits) == 2 * high;
      assert (y + 2 * high) / 2 == y / 2 + high;
      BitAbove(y / 2, c, bits - 1);
    }
  }

  /** Reversal is an involution on [0, 2^bits): the permutation pairs positions up. */
  lemma {:induction false} RevInvolution(i: nat, bits: nat)
    requires i < Pow2(bits)
    ensures Rev(Rev(i, bits), bits) == i
  {
    if bits > 0 {
      var b := bits - 1;
      var c := i % 2;
      var low := Rev(i / 2, b);
      var r := Rev(i, bits);
      assert r == low + c * Pow2(b);
      RevSnoc(r, b);
      assert Rev(r, bits) == 2 * Rev(r, b) + Bit(r, b);
      RevIgnoresHighBits(low, c, b);
      assert Rev(r, b) == Rev(low, b);
      RevInvolution(i / 2, b);
      assert Rev(low, b) == i / 2;
      BitAbove(low, c, b);
      assert Bit(r, b) == c;
    }
  }

  /**
   * Each pair {k, Rev(k)} of distinct positions is swapped exactly once:
   * the swap test `i < j` holds at exactly one of the iterations k and Rev(k).
   */
  lemma SwappedOnce(k: nat, bits: nat)
    requires k < Pow2(bits) && Rev(k, bits) != k
    ensures (k < Rev(k, bits)) != (Rev(k, bits) < Rev(Rev(k, bits), bits))
  {
    RevInvolution(k, bits);
  }

  /**
   * One step of the carry loop: if the top remaining bit of j == Rev(ii, bb)
   * is set, bit 0 of ii is 1 and clearing that bit leaves Rev(ii / 2, bb - 1),
   * whose increment is the increment of ii; otherwise setting it yields
   * Rev(ii + 1, bb).
   */
  lemma RevCarry(ii: nat, bb: nat)
    requires bb >= 1
    ensures (Rev(ii, bb) >= Pow2(bb - 1)) == (ii % 2 == 1)
    ensures ii % 2 == 1 ==>
      Rev(ii, bb) - Pow2(bb - 1) == Rev(ii / 2, bb - 1) && Rev(ii + 1, bb) == Rev(ii / 2 + 1, bb - 1)
    ensures ii % 2 == 0 ==> Rev(ii + 1, bb) == Rev(ii, bb) + Pow2(bb - 1)
  {
    assert ii % 2 == 1 ==> (ii + 1) / 2 == ii / 2 + 1 && (ii + 1) % 2 == 0;
    assert ii % 2 == 0 ==> (ii + 1) / 2 == ii / 2 && (ii + 1) % 2 == 1;
  }

  /**
   * When the carry loop stops, adding m to j gives the reversal of ii + 1:
   * either the next bit of ii is 0 and m sets it, or every bit has been
   * cleared and m is 0.
   */
  lemma CarryDone(ii: nat, bb: nat, j: int, m: int)
    requires j == Rev(ii, bb) && m == if bb == 0 then 0 else Pow2(bb - 1)
    requires !(m >= 1 && j >= m)
    ensures j + m == Rev(ii + 1, bb)
  {
    if bb >= 1 {
      RevCarry(ii, bb);
    }
  }

  lemma {:induction false} RevZero(bits: nat)
    ensures Rev(0, bits) == 0
  {
    if bits > 0 {
      RevZero(bits - 1);
    }
  }

  lemma {:induction false} Pow2Monotone(a: nat, b: nat)
    requires a <= b
    ensures Pow2(a) <= Pow2(b)
  {
    if a < b {
      Pow2Monotone(a, b - 1);
    }
  }

  /**
   * Where the sample at position k comes from once iterations 0 .. i-1 have
   * run: the pair {k, Rev(k)} has been swapped iff its smaller member is below i.
   */
  function Source(k: nat, i: nat, bits: nat): nat
  {
    if k < i || Rev(k, bits) < i then Rev(k, bits) else k
  }

  /**
   * Iteration i moves only positions i and Rev(i): position i takes its
   * sample from Rev(i), position Rev(i) from i, and every other position keeps
   * its source. Before iteration i, neither i nor Rev(i) has moved unless
   * Rev(i) < i, in which case the pair was exchanged at iteration Rev(i).
   */
  lemma SourceAdvance(k: nat, i: nat, bits: nat)
    requires k < Pow2(bits) && i < Pow2(bits)
    ensures Source(k, i + 1, bits) ==
      if k == i then Rev(i, bits)
      else if k == Rev(i, bits) then i
      else Source(k, i, bits)
    ensures Source(i, i, bits) == if Rev(i, bits) < i then Rev(i, bits) else i
    ensures Rev(i, bits) != i ==>
      Source(Rev(i, bits), i, bits) == if Rev(i, bits) < i then i else Rev(i, bits)
  {
    RevInvolution(k, bits);
    RevInvolution(i, bits);
  }

  /** Exchanging two entries of a sequence permutes it. */
  lemma SwapPermutes<T>(s: seq<T>, i: nat, j: nat)
    requires i < |s| && j < |s|
    ensures multiset(s[i := s[j]][j := s[i]]) == multiset(s)
  {
    var t := s[i := s[j]];
    assert multiset(t) == multiset(s) - multiset{s[i]} + multiset{s[j]};
    assert multiset(t[j := s[i]]) == multiset(t) - multiset{t[j]} + multiset{s[i]};
  }

  /** The contents of the array once iterations 0 .. i-1 have run on initial contents orig. */
  function Partial<T>(orig: seq<T>, i: nat, bits: nat): (p: seq<T>)
    requires |orig| == Pow2(bits)
    ensures |p| == |orig|
  {
    seq(|orig|, k requires 0 <= k < |orig| => orig[Source(k, i, bits)])
  }

  /** Before the loop nothing has moved; after all n iterations every position holds the sample from its reversal. */
  lemma PartialEnds<T>(orig: seq<T>, bits: nat)
    requires |orig| == Pow2(bits)
    ensures Partial(orig, 0, bits) == orig
    ensures forall k :: 0 <= k < |orig| ==> Partial(orig, |orig|, bits)[k] == orig[Rev(k, bits)]
  {
  }

  /** One iteration of the loop on values: swapping positions i and Rev(i) when i < Rev(i) advances Partial by one. */
  lemma PartialStep<T>(orig: seq<T>, i: nat, bits: nat)
    requires |orig| == Pow2(bits) && i < |orig|
    ensures var j, p := Rev(i, bits), Partial(orig, i, bits);
      Partial(orig, i + 1, bits) == if i < j then p[i := p[j]][j := p[i]] else p
  {
    var j, p := Rev(i, bits), Partial(orig, i, bits);
    var next := if i < j then p[i := p[j]][j := p[i]] else p;
    forall k | 0 <= k < |orig|
      ensures Partial(orig, i + 1, bits)[k] == next[k]
    {
      SourceAdvance(k, i, bits);
    }
  }

  /**
   * The inner `while` of the bit-reversal loop: given the reversed counter
   * j == Rev(i), clear its leading one bits from the top down and set the
   * first zero bit, which yields Rev(i + 1) (0 once i + 1 == n).
   */
  method NextReversed(n: int, j: int, ghost i: nat, ghost bits: nat) returns (next: int)
    requires n == Pow2(bits) && i < n && j == Rev(i, bits)
    ensures next == Rev(i + 1, bits)
  {
    next := j;
    var m := n / 2;
    ghost var ii: nat, bb: nat := i, bits;
    while m >= 1 && next >= m
      invariant 0 <= next < n
      invariant bb <= bits
      invariant m == if bb == 0 then 0 else Pow2(bb - 1)
      invariant next == Rev(ii, bb)
      invariant Rev(i + 1, bits) == Rev(ii + 1, bb)
      decreases m
    {
      RevCarry(ii, bb);
      next := next - m;
      m := m / 2;
      ii, bb := ii / 2, bb - 1;
      Pow2Monotone(bb, bits);
    }
    CarryDone(ii, bb, next, m);
    next := next + m;
  }

  /** `std::swap(x[i], x[j])`: exchanges two entries, which permutes the array. */
  method Swap<T>(x: array<T>, i: int, j: int)
    requires 0 <= i < x.Length && 0 <= j < x.Length
    modifies x
    ensures x[..] == old(x[..])[i := old(x[j])][j := old(x[i])]
    ensures multiset(x[..]) == multiset(old(x[..]))
  {
    ghost var prev := x[..];
    x[i], x[j] := x[j], x[i];
    assert x[..] == prev[i := prev[j]][j := prev[i]];
    SwapPermutes(prev, i, j);
  }

  /**
   * The bit-reversal loop of `fft`, on an array of any element type whose
   * length N is a power of two.
   */
  method BitReverse<T>(x: array<T>, ghost bits: nat)
    requires x.Length == Pow2(bits)
    modifies x
    ensures forall k :: 0 <= k < x.Length ==> x[k] == old(x[Rev(k, bits)])
    ensures multiset(x[..]) == multiset(old(x[..]))
  {
    ghost var orig := x[..];
    var n := x.Length;
    var j := 0;
    var i := 0;
    RevZero(bits);
    PartialEnds(orig, bits);
    while i < n
      invariant 0 <= i <= n
      invariant j == Rev(i, bits)
      invariant x[..] == Partial(orig, i, bits)
      invariant multiset(x[..]) == multiset(orig)
    {
      PartialStep(orig, i, bits);
      if i < j {
        Swap(x, i, j);
      }
      j := NextReversed(n, j, i, bits);
      i := i + 1;
    }
    forall k | 0 <= k < n
      ensures x[k] == orig[Rev(k, bits)]
    {
      assert x[k] == x[..][k];
    }
  }

  /** An FFT sample: std::complex<double> whose parts here are always whole numbers. */
  datatype Sample = Sample(re: int, im: int)

  /**
   * The first half of `fft(N)`: sample i starts as (i % 256, 0) and the
   * bit-reversal loop reorders the samples.
   */
  method ReorderedSamples(N: nat, ghost bits: nat) returns (s: seq<Sample>)
    requires N == Pow2(bits)
    ensures |s| == N
    ensures forall k :: 0 <= k < N ==> s[k] == Sample(Rev(k, bits) % 256, 0)
  {
    var x := new Sample[N](i => Sample(i % 256, 0));
    BitReverse(x, bits);
    s := x[..];
  }
}
