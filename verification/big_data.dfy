/**
 * The static 8 MiB byte array of bench.cpp and the loop at the end of
 * `main` that adds its bytes into an `unsigned long long`. The array's
 * initializer sets byte 0 to 42; C++ zero-fills every other byte.
 */
module BigData {
  import opened CTypes

  /** Number of bytes in `big_data`: 8 * 1024 * 1024. */
  const BIG_DATA_SIZE: nat := 8 * 1024 * 1024

  /** The mathematical sum of a byte sequence. */
  function Sum(s: seq<uint8>): (t: int)
    ensures 0 <= t <= 255 * |s|
  {
    if s == [] then 0 else Sum(s[..|s| - 1]) + s[|s| - 1] as int
  }

  /** Adding to a value already reduced modulo 2^64 and reducing again is reducing the exact sum. */
  lemma AddMod(a: int, b: int)
    ensures (a % TWO_TO_64 + b) % TWO_TO_64 == (a + b) % TWO_TO_64
  {
    var q := a / TWO_TO_64;
    assert a == q * TWO_TO_64 + a % TWO_TO_64;
    assert a + b == (a % TWO_TO_64 + b) + q * TWO_TO_64;
  }

  /**
   * The summing loop of `main`: `bigsum += big_data[i]` for every i, on an
   * unsigned 64-bit accumulator, so the result is the byte sum modulo 2^64,
   * and the exact byte sum whenever that cannot reach 2^64.
   */
  method SumBytes(data: array<uint8>) returns (total: uint64)
    ensures total as int == Sum(data[..]) % TWO_TO_64
    ensures 255 * data.Length < TWO_TO_64 ==> total as int == Sum(data[..])
  {
    total := 0;
    var i := 0;
    while i < data.Length
      invariant 0 <= i <= data.Length
      invariant total as int == Sum(data[..i]) % TWO_TO_64
    {
      assert data[..i + 1][..i] == data[..i];
      AddMod(Sum(data[..i]), data[i] as int);
      total := ((total as int + data[i] as int) % TWO_TO_64) as uint64;
      i := i + 1;
    }
    assert data[..data.Length] == data[..];
  }

  /** A sequence that is zero after its first element sums to that element. */
  lemma {:induction false} SumOfLeading(s: seq<uint8>)
    requires |s| > 0 && forall k :: 1 <= k < |s| ==> s[k] == 0
    ensures Sum(s) == s[0] as int
  {
    if |s| > 1 {
      var init := s[..|s| - 1];
      assert forall k :: 1 <= k < |init| ==> init[k] == s[k];
      SumOfLeading(init);
    }
  }

  /** The contents of `big_data` at program start: 42 followed by zeros. */
  method NewBigData() returns (data: array<uint8>)
    ensures fresh(data) && data.Length == BIG_DATA_SIZE
    ensures data[0] == 42 && forall k :: 1 <= k < data.Length ==> data[k] == 0
  {
    data := new uint8[BIG_DATA_SIZE](k => if k == 0 then 42 else 0);
  }

  /** The BigDataSum line of `main`: the bytes of `big_data` add up to 42, with no wrap-around. */
  method BigDataSum() returns (total: uint64)
    ensures total == 42
  {
    var data := NewBigData();
    total := SumBytes(data);
    SumOfLeading(data[..]);
  }
}
