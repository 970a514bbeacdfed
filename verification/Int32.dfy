/** Java's 32-bit `int`: arithmetic wraps around modulo 2^32 into
    [-2^31, 2^31), and a wider integer cast down (`BigInteger.intValue()`)
    keeps its low 32 bits the same way. */
module Int32 {

  const TwoTo32: int := 0x1_0000_0000
  const TwoTo31: int := 0x8000_0000

  /** The `int` that Java's wrap-around arithmetic leaves of `x`. */
  function Wrap32(x: int): (r: int)
    ensures -TwoTo31 <= r < TwoTo31
    ensures (x - r) % TwoTo32 == 0
    ensures -TwoTo31 <= x < TwoTo31 ==> r == x
  {
    (x + TwoTo31) % TwoTo32 - TwoTo31
  }

  /** Values that differ by a multiple of 2^32 wrap to the same `int`. */
  lemma {:induction false} WrapShift(x: int, k: int)
    ensures Wrap32(x + k * TwoTo32) == Wrap32(x)
    decreases if k < 0 then -k else k
  {
    if k > 0 {
      WrapShift(x, k - 1);
      assert x + k * TwoTo32 == (x + (k - 1) * TwoTo32) + TwoTo32;
    } else if k < 0 {
      WrapShift(x, k + 1);
      assert x + k * TwoTo32 == (x + (k + 1) * TwoTo32) - TwoTo32;
    }
  }

  /** Wrapping an intermediate result of `31 * h + c` does not change the
      wrapped result. */
  lemma WrapStep(h: int, c: int)
    ensures Wrap32(31 * Wrap32(h) + c) == Wrap32(31 * h + c)
  {
    var w := Wrap32(h);
    var k := (h - w) / TwoTo32;
    assert h - w == k * TwoTo32;
    assert 31 * h + c == (31 * w + c) + (31 * k) * TwoTo32;
    WrapShift(31 * w + c, 31 * k);
  }
}
