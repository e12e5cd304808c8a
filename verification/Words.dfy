/** 32-bit unsigned words and their signed reading, as the scheduler's clock arithmetic uses them. */
module Words {

  type uint32 = x: int | 0 <= x < 0x1_0000_0000

  /** The low 32 bits of an unbounded integer. */
  function Wrap32(x: int): uint32 {
    x % 0x1_0000_0000
  }

  /** The low 32 bits of `x`, read as a two's complement `int32_t`. */
  function Signed32(x: int): (r: int)
    ensures -0x8000_0000 <= r < 0x8000_0000
  {
    var w := x % 0x1_0000_0000;
    if w < 0x8000_0000 then w else w - 0x1_0000_0000
  }

  /** Small numbers are their own words. */
  lemma SmallWords(x: int)
    ensures 0 <= x < 0x1_0000_0000 ==> Wrap32(x) == x
    ensures -0x8000_0000 <= x < 0x8000_0000 ==> Signed32(x) == x
  {
  }

  /** `Wrap32` forgets multiples of 2^32 and nothing else. */
  lemma WrapOf(x: int) returns (q: int)
    ensures x == Wrap32(x) + 0x1_0000_0000 * q
  {
    q := x / 0x1_0000_0000;
  }

  lemma WrapUnique(x: int, r: int, q: int)
    requires x == r + 0x1_0000_0000 * q && 0 <= r < 0x1_0000_0000
    ensures Wrap32(x) == r
  {
  }

  /** Sums and differences may be wrapped at any stage. */
  lemma WrapAddsUp(a: int, b: int)
    ensures Wrap32(Wrap32(a) + b) == Wrap32(a + b)
  {
    var q := WrapOf(a);
    var p := WrapOf(Wrap32(a) + b);
    WrapUnique(a + b, Wrap32(Wrap32(a) + b), q + p);
  }

  lemma SignedOf(x: int) returns (q: int)
    ensures x == Signed32(x) + 0x1_0000_0000 * q
  {
    q := WrapOf(x);
    if x % 0x1_0000_0000 >= 0x8000_0000 {
      q := q + 1;
    }
  }

  /** The signed difference of two wrapped counters is exact iff the counters are within half the range. */
  lemma SignedDifferenceExact(a: int, b: int)
    ensures Signed32(Wrap32(a) - Wrap32(b)) == a - b <==> -0x8000_0000 <= a - b < 0x8000_0000
  {
    var q := WrapOf(a);
    var p := WrapOf(b);
    var s := SignedOf(Wrap32(a) - Wrap32(b));
    assert a - b == Signed32(Wrap32(a) - Wrap32(b)) + 0x1_0000_0000 * (q - p + s);
  }
}
