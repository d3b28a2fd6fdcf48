/**
 Go's fixed-width unsigned integers and its integer remainder, written out over
 Dafny's unbounded integers. Every truncation the Go code performs implicitly
 (a `uint8(...)` conversion, `uint8` addition or subtraction, a `uint16`
 product) goes through `Wrap8` or `Wrap16`, so that the absence of wrap-around
 is something the model has to prove rather than something it assumes.
 */
module Bytes {

  /** A Go `uint8`. */
  type u8 = x: int | 0 <= x < 0x100

  /** A Go `uint16`. */
  type u16 = x: int | 0 <= x < 0x1_0000

  /** `uint8(x)`: keeps the low eight bits of a two's-complement integer. */
  function Wrap8(x: int): (r: u8)
    ensures 0 <= x < 0x100 ==> r == x
    ensures (x - r) % 0x100 == 0
  {
    x % 0x100
  }

  /** `uint16(x)`: keeps the low sixteen bits of a two's-complement integer. */
  function Wrap16(x: int): (r: u16)
    ensures 0 <= x < 0x1_0000 ==> r == x
    ensures (x - r) % 0x1_0000 == 0
  {
    x % 0x1_0000
  }

  /** `a + b` on two `uint8` operands. */
  function Add8(a: u8, b: u8): (r: u8)
    ensures a + b < 0x100 ==> r == a + b
    ensures a + b >= 0x100 ==> r == a + b - 0x100
  {
    Wrap8(a + b)
  }

  /** `a - b` on two `uint8` operands. */
  function Sub8(a: u8, b: u8): (r: u8)
    ensures b <= a ==> r == a - b
    ensures a < b ==> r == a - b + 0x100
  {
    Wrap8(a - b)
  }

  /** `x << 3` on a `uint8`: bits shifted past bit 7 are lost. */
  function ShiftLeft3(x: u8): (r: u8)
    ensures x < 0x20 ==> r == x * 8
    ensures r % 8 == 0
  {
    Wrap8(x * 8)
  }

  /**
   Go's `a % 256` on a signed integer: the quotient is truncated toward zero, so
   the remainder takes the sign of the dividend.
   */
  function GoRem256(a: int): (r: int)
    ensures a >= 0 ==> 0 <= r < 0x100
    ensures a < 0 ==> -0x100 < r <= 0
    ensures (a - r) % 0x100 == 0
  {
    if a >= 0 then a % 0x100 else -((-a) % 0x100)
  }

  /**
   Converting Go's truncated remainder by 256 to `uint8` gives the Euclidean
   remainder, for negative dividends as well.
   */
  lemma GoRemToByte(a: int)
    ensures Wrap8(GoRem256(a)) == a % 0x100
  {
    var r := GoRem256(a);
    if a < 0 && r < 0 {
      assert Wrap8(r) == r + 0x100;
      assert (a - (r + 0x100)) % 0x100 == 0;
    }
  }

  /**
   Go's `int` on a 32-bit target: the two's-complement value of the low 32
   bits, so sums and products that leave the range wrap round.
   */
  function Wrap32Signed(x: int): (r: int)
    ensures -0x8000_0000 <= r < 0x8000_0000
    ensures -0x8000_0000 <= x < 0x8000_0000 ==> r == x
    ensures (x - r) % 0x1_0000_0000 == 0
  {
    var u := x % 0x1_0000_0000;
    if u < 0x8000_0000 then u else u - 0x1_0000_0000
  }

  /** Go's `int` on a 64-bit target. */
  function Wrap64Signed(x: int): (r: int)
    ensures -0x8000_0000_0000_0000 <= r < 0x8000_0000_0000_0000
    ensures -0x8000_0000_0000_0000 <= x < 0x8000_0000_0000_0000 ==> r == x
    ensures (x - r) % 0x1_0000_0000_0000_0000 == 0
  {
    var u := x % 0x1_0000_0000_0000_0000;
    if u < 0x8000_0000_0000_0000 then u else u - 0x1_0000_0000_0000_0000
  }

  /**
   An `int` that has wrapped round still gives the right byte: 256 divides
   both 2^32 and 2^64, so the `uint8` of the remainder by 256 is that of the
   unbounded integer.
   */
  lemma OverflowHarmless(a: int)
    ensures Wrap8(GoRem256(Wrap32Signed(a))) == a % 0x100
    ensures Wrap8(GoRem256(Wrap64Signed(a))) == a % 0x100
  {
    var r32, r64 := Wrap32Signed(a), Wrap64Signed(a);
    GoRemToByte(r32);
    GoRemToByte(r64);
    var k32 := (a - r32) / 0x1_0000_0000;
    assert r32 == a - 0x100 * (0x100_0000 * k32);
    ModTurns(a, 0x100_0000 * k32);
    var k64 := (a - r64) / 0x1_0000_0000_0000_0000;
    assert r64 == a - 0x100 * (0x100_0000_0000_0000 * k64);
    ModTurns(a, 0x100_0000_0000_0000 * k64);
  }

  /** Adding k whole turns of 256 does not change the remainder. */
  lemma ModTurns(a: int, k: int)
    ensures (a - 0x100 * k) % 0x100 == a % 0x100
    ensures (a + 0x100 * k) % 0x100 == a % 0x100
  {
    var q, r := a / 0x100, a % 0x100;
    assert a + 0x100 * k == 0x100 * (q + k) + r;
    assert a - 0x100 * k == 0x100 * (q - k) + r;
  }
}
