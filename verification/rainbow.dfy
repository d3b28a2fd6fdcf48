/**
 `fillRainbow` of rainbow.go: every pixel of the strip gets the wheel colour
 at hue `(offset + step * i) % 256`, with full alpha. The Go slice is written
 in place in index order; here it is a sequence going in and a sequence
 coming out, with the loop kept as rainbow.go has it.
 */
module Rainbow {
  import opened Bytes
  import opened ColorWheel
  import FixedPoint

  /** The saturation and brightness constants rainbow.go passes to `HSV2RGB`. */
  const Saturation: u8 := 255
  const Brightness: u8 := 10

  /** `color.RGBA`. */
  datatype Rgba = Rgba(r: u8, g: u8, b: u8, a: u8)

  /** The hue byte of pixel i: `uint8((offset + step*i) % 256)` with Go's `%`. */
  function HueAt(offset: int, step: int, i: int): (h: u8)
    ensures h == (offset + step * i) % 0x100
  {
    GoRemToByte(offset + step * i);
    Wrap8(GoRem256(offset + step * i))
  }

  /**
   The colour `fillRainbow` stores for hue h: the wheel colour, opaque. The
   brightness of 10 it asks for is lost: the pixel is the full-brightness
   colour, with one channel off.
   */
  function PixelOf(h: u8): (p: Rgba)
    ensures Rgb(p.r, p.g, p.b) == HSV2RGB(h, 255, 255)
    ensures p.r == 0 || p.g == 0 || p.b == 0
    ensures p.a == 255
  {
    var c := HSV2RGB(h, Saturation, Brightness);
    SaturationValueIgnored(h, Saturation, Brightness, 255, 255);
    Rgba(c.r, c.g, c.b, 255)
  }

  /**
   `fillRainbow(pixels, offset, step)`. The buffer keeps its length and its
   earlier contents do not matter: pixel i is the wheel colour at
   `(offset + step * i) mod 256`, with Euclidean `mod` even when the sum is
   negative, and alpha 255.
   */
  method FillRainbow(pixels: seq<Rgba>, offset: int, step: int) returns (out: seq<Rgba>)
    ensures |out| == |pixels|
    ensures forall i :: 0 <= i < |out| ==>
      var c := HSV2RGB((offset + step * i) % 0x100, Saturation, Brightness);
      out[i] == Rgba(c.r, c.g, c.b, 255)
    ensures out == Strip(|pixels|, offset, step)
  {
    out := pixels;
    var i := 0;
    while i < |out|
      invariant 0 <= i <= |out| == |pixels|
      invariant forall j :: 0 <= j < i ==> out[j] == PixelOf((offset + step * j) % 0x100)
    {
      var hue := Wrap8(GoRem256(offset + step * i));
      GoRemToByte(offset + step * i);
      var c := HSV2RGB(hue, Saturation, Brightness);
      out := out[i := Rgba(c.r, c.g, c.b, 255)];
      i := i + 1;
    }
  }

  /**
   The whole strip as a sequence: what `FillRainbow` leaves in a buffer of
   n pixels.
   */
  function Strip(n: nat, offset: int, step: int): (p: seq<Rgba>)
    ensures |p| == n
    ensures forall i :: 0 <= i < n ==> p[i] == PixelOf((offset + step * i) % 0x100)
  {
    seq(n, i requires 0 <= i < n => PixelOf(HueAt(offset, step, i)))
  }

  /** Moving the offset by a whole turn of the wheel changes no pixel. */
  lemma OffsetPeriodic(n: nat, offset: int, step: int)
    ensures Strip(n, offset + 0x100, step) == Strip(n, offset, step)
  {
    forall i | 0 <= i < n
      ensures HueAt(offset + 0x100, step, i) == HueAt(offset, step, i)
    {
      assert offset + 0x100 + step * i == (offset + step * i) + 0x100;
      ModTurns(offset + step * i, 1);
    }
  }

  /** A step of 256 + d colours the strip exactly as a step of d does. */
  lemma StepPeriodic(n: nat, offset: int, step: int)
    ensures Strip(n, offset, step + 0x100) == Strip(n, offset, step)
  {
    var p, q := Strip(n, offset, step + 0x100), Strip(n, offset, step);
    forall i | 0 <= i < n
      ensures p[i] == q[i]
    {
      StepTurnHue(offset, step, i);
    }
    assert p == q;
  }

  lemma StepTurnHue(offset: int, step: int, i: int)
    ensures (offset + (step + 0x100) * i) % 0x100 == (offset + step * i) % 0x100
  {
    assert offset + (step + 0x100) * i == (offset + step * i) + 0x100 * i;
    ModTurns(offset + step * i, i);
  }

  /**
   Advancing the offset by one, as the hue timer of rainbow.go does, moves
   every pixel one hue further round the wheel.
   */
  lemma OffsetAdvancesHue(offset: int, step: int, i: int)
    ensures HueAt(offset + 1, step, i) == NextHue(HueAt(offset, step, i))
  {
    var a := offset + step * i;
    assert offset + 1 + step * i == a + 1;
    ModTurns(a, a / 0x100);
    ModTurns(a + 1, a / 0x100);
  }

  /**
   Advancing the offset by the step scrolls the strip: pixel i then shows
   what pixel i + 1 showed before.
   */
  lemma OffsetByStepScrolls(n: nat, offset: int, step: int)
    ensures Strip(n, offset + step, step) == Strip(n + 1, offset, step)[1..]
  {
    var p, q := Strip(n, offset + step, step), Strip(n + 1, offset, step);
    forall i | 0 <= i < n
      ensures p[i] == q[i + 1]
    {
      assert offset + step + step * i == offset + step * (i + 1);
      assert HueAt(offset + step, step, i) == HueAt(offset, step, i + 1);
      assert p[i] == PixelOf(HueAt(offset + step, step, i));
      assert q[i + 1] == PixelOf(HueAt(offset, step, i + 1));
    }
  }

  /**
   The strip rainbow.go drives, ten pixels at a step of 25 starting from offset
   0, begins with pure red and then an orange-red at hue 25; so does every
   strip whose offset is a whole number of turns and whose step is 25 modulo a
   turn.
   */
  lemma StripStart(n: nat, offset: int, step: int)
    requires 2 <= n && offset % 0x100 == 0 && step % 0x100 == 25
    ensures Strip(n, offset, step)[0] == Rgba(255, 0, 0, 255)
    ensures Strip(n, offset, step)[1] == Rgba(189, 66, 0, 255)
  {
    var h0, h1 := (offset + step * 0) % 0x100, (offset + step * 1) % 0x100;
    assert Strip(n, offset, step)[0] == Rgba(255, 0, 0, 255) by {
      FirstHues(offset, step);
      StripPixel(n, offset, step, 0, h0);
      AnchorColours(h0, Saturation, Brightness);
      PixelColour(h0, Rgb(255, 0, 0));
    }
    assert Strip(n, offset, step)[1] == Rgba(189, 66, 0, 255) by {
      FirstHues(offset, step);
      StripPixel(n, offset, step, 1, h1);
      HueTwentyFive(h1, Saturation, Brightness);
      PixelColour(h1, Rgb(189, 66, 0));
    }
  }

  /**
   With a whole number of turns as offset and a step of 25 modulo a turn,
   pixel 0 shows hue 0 and pixel 1 hue 25.
   */
  lemma FirstHues(offset: int, step: int)
    requires offset % 0x100 == 0 && step % 0x100 == 25
    ensures (offset + step * 0) % 0x100 == 0
    ensures (offset + step * 1) % 0x100 == 25
  {
    assert offset + step * 0 == offset;
    ModTurns(offset, offset / 0x100);
    ModTurns(step, step / 0x100);
    ModTurns(25, offset / 0x100 + step / 0x100);
    assert offset + step * 1 == 25 + 0x100 * (offset / 0x100 + step / 0x100);
  }

  /** Pixel i of the strip shows the hue `(offset + step * i) mod 256`. */
  lemma StripPixel(n: nat, offset: int, step: int, i: nat, h: u8)
    requires i < n && (offset + step * i) % 0x100 == h
    ensures Strip(n, offset, step)[i] == PixelOf(h)
  {
  }

  /** A pixel carries the wheel colour of its hue, at full alpha. */
  lemma PixelColour(h: u8, c: Rgb)
    requires HSV2RGB(h, Saturation, Brightness) == c
    ensures PixelOf(h) == Rgba(c.r, c.g, c.b, 255)
  {
  }

  /** Hue 25 lies in section 0, where `third` has reached 66. */
  lemma HueTwentyFive(h: u8, s: u8, v: u8)
    requires h == 25
    ensures HSV2RGB(h, s, v) == Rgb(189, 66, 0)
  {
    assert Third(h) == 66 by {
      assert Offset8(h) == 200;
      RampsAreScales(h);
      FixedPoint.ScaleIsFloor(200, 85);
    }
    assert HSV2RGB(h, s, v) == Rgb(255 - Third(h), Third(h), 0) by {
      assert h < 0x80 && h % 0x80 < 0x40 && h % 0x40 < 0x20;
    }
  }
}
