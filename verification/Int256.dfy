/**
 The signed 256-bit integers of the contract: arithmetic wraps around modulo 2^256.
 */
module Int256 {
  const TWO_254: int := 0x4000000000000000000000000000000000000000000000000000000000000000
  const TWO_255: int := 0x8000000000000000000000000000000000000000000000000000000000000000
  const TWO_256: int := 0x1_0000000000000000000000000000000000000000000000000000000000000000

  type Int = x: int | -TWO_255 <= x < TWO_255

  function Wrap(x: int): (r: Int)
    ensures -TWO_255 <= x < TWO_255 ==> r == x
    ensures TWO_255 <= x < TWO_255 + TWO_256 ==> r == x - TWO_256
    ensures -TWO_255 - TWO_256 <= x < -TWO_255 ==> r == x + TWO_256
  {
    (x + TWO_255) % TWO_256 - TWO_255
  }

  /** A sum may be wrapped once, at the end. */
  lemma WrapOnce(x: int, y: int)
    ensures Wrap(Wrap(x) + y) == Wrap(x + y)
  {
    var a := x + TWO_255;
    assert Wrap(x) + y + TWO_255 == a % TWO_256 + y;
    assert (a % TWO_256 + y) % TWO_256 == (a + y) % TWO_256 by {
      ModPlus(a, y);
    }
  }

  lemma ModPlus(a: int, y: int)
    ensures (a % TWO_256 + y) % TWO_256 == (a + y) % TWO_256
  {
    var q := a / TWO_256;
    assert a + y == (a % TWO_256 + y) + q * TWO_256;
    ModShift(a % TWO_256 + y, q);
  }

  lemma ModShift(b: int, q: int)
    ensures (b + q * TWO_256) % TWO_256 == b % TWO_256
  {
  }
}
