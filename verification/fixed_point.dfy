/**
 The two fixed-point helpers of rainbow.go: `scale` multiplies an 8-bit value
 by an 8-bit fraction k/256 and rounds down; `scale_video` does the same and
 then adds one whenever the fraction is neither 0 nor 255/256, so that a dimmed
 channel never drops to exact black.
 */
module FixedPoint {
  import opened Bytes

  /** `scale(value, k)`: the 16-bit product shifted right by eight, as a byte. */
  function Scale(value: u8, k: u8): (r: u8)
    ensures r <= value && r <= k
    ensures k == 0 || value == 0 ==> r == 0
  {
    ProductFits(value, k);
    Wrap8(Wrap16(value * k) / 0x100)
  }

  /** `scale` is exact floor division: value * k / 256 rounded down, with no truncation on the way. */
  lemma ScaleIsFloor(value: u8, k: u8)
    ensures Scale(value, k) * 0x100 <= value * k < Scale(value, k) * 0x100 + 0x100
  {
    ProductFits(value, k);
  }

  /** The `uint16` product of two bytes never wraps, and shifted down it fits a byte. */
  lemma ProductFits(a: u8, b: u8)
    ensures 0 <= a * b <= 0xFF * 0xFF
    ensures a * b / 0x100 <= a && a * b / 0x100 <= b
  {
    MulMonotone(a, a, b, 0xFF);
    MulMonotone(a, 0xFF, b, b);
    MulMonotone(a, 0xFF, b, 0xFF);
  }

  /** Scaling by a larger fraction, or scaling a larger value, never gives less. */
  lemma ScaleMonotone(x1: u8, x2: u8, k1: u8, k2: u8)
    requires x1 <= x2 && k1 <= k2
    ensures Scale(x1, k1) <= Scale(x2, k2)
  {
    ScaleIsFloor(x1, k1);
    ScaleIsFloor(x2, k2);
    MulMonotone(x1, x2, k1, k2);
    FloorMonotone(Scale(x1, k1), Scale(x2, k2), x1 * k1, x2 * k2);
  }

  lemma FloorMonotone(a: int, b: int, p: int, q: int)
    requires a * 0x100 <= p <= q < b * 0x100 + 0x100
    ensures a <= b
  {
  }

  lemma MulMonotone(x1: nat, x2: nat, k1: nat, k2: nat)
    requires x1 <= x2 && k1 <= k2
    ensures x1 * k1 <= x2 * k2
  {
    assert x2 * k1 - x1 * k1 == (x2 - x1) * k1;
    assert x2 * k2 - x2 * k1 == x2 * (k2 - k1);
  }

  /** Scaling by 255/256 is not the identity: it loses one unit from every non-zero value. */
  lemma ScaleByFull(x: u8)
    ensures Scale(x, 0xFF) == if x == 0 then 0 else x - 1
  {
    ScaleIsFloor(x, 0xFF);
    assert x * 0xFF == x * 0x100 - x;
    if x > 0 {
      assert (x - 1) * 0x100 <= x * 0xFF < x * 0x100;
    }
  }

  /**
   `scale_video(value, k)`: `scale` plus one when k is neither 0 nor 255. The
   addition is `uint8` addition, which the contract shows never wraps.
   */
  function ScaleVideo(value: u8, k: u8): (r: u8)
    ensures k != 0 && k != 0xFF ==> r == Scale(value, k) + 1
    ensures k == 0 || k == 0xFF ==> r == Scale(value, k)
    ensures k == 0 ==> r == 0
    ensures k != 0 && k != 0xFF ==> 1 <= r <= k
  {
    var nonzero: u8 := if k != 0 && k != 0xFF then 1 else 0;
    ScaleBelowFraction(value, k);
    Add8(Scale(value, k), nonzero)
  }

  /** A fraction k/256 below one scales every byte to less than k. */
  lemma ScaleBelowFraction(value: u8, k: u8)
    ensures k > 0 ==> Scale(value, k) < k
  {
    ScaleMonotone(value, 0xFF, k, k);
    ScaleIsFloor(0xFF, k);
    assert 0xFF * k < k * 0x100 || k == 0;
  }
}
