/**
 The FastLED-style hue wheel of rainbow.go. A hue byte is split into three
 guard bits, which pick one of eight sections of the wheel, and a five-bit
 position inside that section. Each section starts at a fixed anchor colour and
 moves one or two channels by a ramp ("third", rising to 82, or "twothirds",
 rising to 164) towards the next anchor.

 `HSV2RGB` returns before its saturation and brightness code, so its result
 depends on the hue alone. That code is modelled separately, as
 `DesaturateAndDim`, which nothing calls.
 */
module ColorWheel {
  import opened Bytes
  import opened FixedPoint

  const K255: u8 := 255
  const K171: u8 := 171
  const K170: u8 := 170
  const K85: u8 := 85

  datatype Rgb = Rgb(r: u8, g: u8, b: u8)

  /** Channel levels as unbounded integers, for arithmetic that must not wrap. */
  datatype Levels = Levels(r: int, g: int, b: int)

  function ToLevels(c: Rgb): Levels {
    Levels(c.r, c.g, c.b)
  }

  /** The guard bits 7, 6 and 5 of the hue, read as a section number 0..7. */
  function Section(h: u8): (s: nat)
    ensures s < 8
    ensures s * 0x20 <= h < s * 0x20 + 0x20
  {
    h / 0x20
  }

  /**
   `offset8 = (h & 0x1F) << 3`: the position inside the section, on a 0..248
   scale; the shift loses no bits.
   */
  function Offset8(h: u8): (o: u8)
    ensures o == h % 0x20 * 8
    ensures o <= 248
  {
    ShiftLeft3(h % 0x20)
  }

  /**
   `third = scale(offset8, 256/3)`, where Go's integer division makes the
   fraction 85: at most 82, short of the 85 an anchor step needs.
   */
  function Third(h: u8): (t: u8)
    ensures t <= 82
    ensures t == 0 <==> h % 0x20 == 0
  {
    var offset8 := Offset8(h);
    RampBounds(offset8);
    Scale(offset8, 85)
  }

  /** `twothirds = scale(offset8, ((256 * 2) / 3))`, a fraction of 170: at most 164, short of 170. */
  function TwoThirds(h: u8): (t: u8)
    ensures t <= 164
    ensures t == 0 <==> h % 0x20 == 0
  {
    var offset8 := Offset8(h);
    RampBounds(offset8);
    Scale(offset8, 170)
  }

  /** Over the offsets 0, 8, ..., 248 the two ramps stay within 82 and 164 and are 0 only at 0. */
  lemma RampBounds(offset8: u8)
    requires offset8 <= 248 && offset8 % 8 == 0
    ensures Scale(offset8, 85) <= 82 && (Scale(offset8, 85) == 0 <==> offset8 == 0)
    ensures Scale(offset8, 170) <= 164 && (Scale(offset8, 170) == 0 <==> offset8 == 0)
  {
    ScaleIsFloor(offset8, 85);
    ScaleIsFloor(offset8, 170);
  }

  /**
   `HSV2RGB(h, s, v)` as rainbow.go runs it: the section is chosen by testing
   bit 7 (`h & 0x80 == 0` is `h < 0x80`), then bit 6 (`h % 0x80 < 0x40`), then
   bit 5 (`h % 0x40 < 0x20`), and every channel expression is `uint8`
   arithmetic. The function returns here; `s` and `v` are never read.
   */
  function HSV2RGB(h: u8, s: u8, v: u8): (c: Rgb)
    ensures c.r == 0 || c.g == 0 || c.b == 0
  {
    var third := Third(h);
    if h < 0x80 then
      if h % 0x80 < 0x40 then
        if h % 0x40 < 0x20 then
          // 000: red -> orange
          Rgb(Sub8(K255, third), third, 0)
        else
          // 001: orange -> yellow
          Rgb(K171, Add8(K85, third), 0)
      else
        if h % 0x40 < 0x20 then
          // 010: yellow -> green
          var twothirds := TwoThirds(h);
          Rgb(Sub8(K171, twothirds), Add8(K170, third), 0)
        else
          // 011: green -> aqua
          Rgb(0, Sub8(K255, third), third)
    else
      if h % 0x80 < 0x40 then
        if h % 0x40 < 0x20 then
          // 100: aqua -> blue
          var twothirds := TwoThirds(h);
          Rgb(0, Sub8(K171, twothirds), Add8(K85, twothirds))
        else
          // 101: blue -> purple
          Rgb(third, 0, Sub8(K255, third))
      else
        if h % 0x40 < 0x20 then
          // 110: purple -> pink
          Rgb(Add8(K85, third), 0, Sub8(K171, third))
        else
          // 111: pink -> red
          Rgb(Add8(K170, third), 0, Sub8(K85, third))
  }

  /** The colour at the first hue of each section. */
  function Anchor(s: nat): Rgb
    requires s < 8
  {
    match s
    case 0 => Rgb(255, 0, 0)     // red
    case 1 => Rgb(171, 85, 0)    // orange
    case 2 => Rgb(171, 170, 0)   // yellow
    case 3 => Rgb(0, 255, 0)     // green
    case 4 => Rgb(0, 171, 85)    // aqua
    case 5 => Rgb(0, 0, 255)     // blue
    case 6 => Rgb(85, 0, 171)    // purple
    case 7 => Rgb(170, 0, 85)    // pink
  }

  /**
   How each channel moves across a section: 0 stays at the anchor, +1 / -1
   follows the "third" ramp up / down, +2 / -2 the "twothirds" ramp.
   */
  function Slope(s: nat): Levels
    requires s < 8
  {
    match s
    case 0 => Levels(-1, 1, 0)
    case 1 => Levels(0, 1, 0)
    case 2 => Levels(-2, 1, 0)
    case 3 => Levels(0, -1, 1)
    case 4 => Levels(0, -2, 2)
    case 5 => Levels(1, 0, -1)
    case 6 => Levels(1, 0, -1)
    case 7 => Levels(1, 0, -1)
  }

  function Ramp(slope: int, h: u8): int
    requires -2 <= slope <= 2
  {
    match slope
    case 0 => 0
    case 1 => Third(h)
    case -1 => -(Third(h) as int)
    case 2 => TwoThirds(h)
    case -2 => -(TwoThirds(h) as int)
  }

  /** The wheel as anchor plus slope times ramp, in unbounded integers. */
  function Reference(h: u8): Levels {
    Along(Anchor(Section(h)), Slope(Section(h)), h)
  }

  /** A slope of -2..2 per channel, as `Slope` gives. */
  predicate SlopeInRange(d: Levels) {
    -2 <= d.r <= 2 && -2 <= d.g <= 2 && -2 <= d.b <= 2
  }

  /** The anchor `a` moved along the slopes `d` to the position of hue h. */
  function Along(a: Rgb, d: Levels, h: u8): Levels
    requires SlopeInRange(d)
  {
    Levels(a.r + Ramp(d.r, h), a.g + Ramp(d.g, h), a.b + Ramp(d.b, h))
  }

  /**
   None of the `uint8` additions and subtractions in `HSV2RGB` wraps: its
   result is exactly the anchor-plus-ramp colour computed without truncation.
   */
  lemma NoWrapAround(h: u8, s: u8, v: u8)
    ensures ToLevels(HSV2RGB(h, s, v)) == Reference(h)
  {
    GuardBits(h);
    if h < 0x80 {
      NoWrapAroundFirstHalf(h, s, v);
    } else {
      NoWrapAroundSecondHalf(h, s, v);
    }
  }

  /** Sections 0 to 3: red through orange and yellow to aqua. */
  lemma NoWrapAroundFirstHalf(h: u8, s: u8, v: u8)
    requires h < 0x80
    ensures ToLevels(HSV2RGB(h, s, v)) == Reference(h)
  {
    GuardBits(h);
    var t, tt := Third(h), TwoThirds(h);
    var c := HSV2RGB(h, s, v);
    if h % 0x80 < 0x40 {
      if h % 0x40 < 0x20 {
        assert Section(h) == 0 && c == Rgb(255 - t, t, 0);
      } else {
        assert Section(h) == 1 && c == Rgb(171, 85 + t, 0);
      }
    } else {
      if h % 0x40 < 0x20 {
        assert Section(h) == 2 && c == Rgb(171 - tt, 170 + t, 0);
      } else {
        assert Section(h) == 3 && c == Rgb(0, 255 - t, t);
      }
    }
  }

  /** Sections 4 to 7: aqua through blue and purple back to red. */
  lemma NoWrapAroundSecondHalf(h: u8, s: u8, v: u8)
    requires 0x80 <= h
    ensures ToLevels(HSV2RGB(h, s, v)) == Reference(h)
  {
    GuardBits(h);
    var t, tt := Third(h), TwoThirds(h);
    var c := HSV2RGB(h, s, v);
    if h % 0x80 < 0x40 {
      if h % 0x40 < 0x20 {
        assert Section(h) == 4 && c == Rgb(0, 171 - tt, 85 + tt);
      } else {
        assert Section(h) == 5 && c == Rgb(t, 0, 255 - t);
      }
    } else {
      if h % 0x40 < 0x20 {
        assert Section(h) == 6 && c == Rgb(85 + t, 0, 171 - t);
      } else {
        assert Section(h) == 7 && c == Rgb(170 + t, 0, 85 - t);
      }
    }
  }

  /**
   The masks `HSV2RGB` applies to the hue byte b are the comparisons and
   remainders the model uses in their place, on the hue `b as int`.
   */
  lemma MasksAsArithmetic(b: bv8)
    ensures b & 0x80 == 0 <==> (b as int) < 0x80
    ensures b & 0x40 == 0 <==> (b as int) % 0x80 < 0x40
    ensures b & 0x20 == 0 <==> (b as int) % 0x40 < 0x20
    ensures (b & 0x1F) as int == (b as int) % 0x20
  {
    GuardMasks(b);
    OffsetMask(b);
  }

  lemma GuardMasks(b: bv8)
    ensures b & 0x80 == 0 <==> (b as int) < 0x80
    ensures b & 0x40 == 0 <==> (b as int) % 0x80 < 0x40
    ensures b & 0x20 == 0 <==> (b as int) % 0x40 < 0x20
  {
    assert b & 0x80 == 0 <==> b < 0x80;
    Bit6Mask(b);
    Bit5Mask(b);
  }

  lemma Bit6Mask(b: bv8)
    ensures b & 0x40 == 0 <==> (b as int) % 0x80 < 0x40
  {
    assert b & 0x40 == 0 <==> b % 0x80 < 0x40;
    assert (b % 0x80) as int == (b as int) % 0x80;
  }

  lemma Bit5Mask(b: bv8)
    ensures b & 0x20 == 0 <==> (b as int) % 0x40 < 0x20
  {
    assert b & 0x20 == 0 <==> b % 0x40 < 0x20;
    assert (b % 0x40) as int == (b as int) % 0x40;
  }

  lemma OffsetMask(b: bv8)
    ensures (b & 0x1F) as int == (b as int) % 0x20
  {
    assert b & 0x1F == b % 0x20;
  }

  /** The bit tests of `HSV2RGB` read the three bits of the section number. */
  lemma GuardBits(h: u8)
    ensures h < 0x80 <==> Section(h) < 4
    ensures h % 0x80 < 0x40 <==> Section(h) % 4 < 2
    ensures h % 0x40 < 0x20 <==> Section(h) % 2 == 0
    ensures Section(h) == (if h < 0x80 then 0 else 4) + (if h % 0x80 < 0x40 then 0 else 2)
                          + (if h % 0x40 < 0x20 then 0 else 1)
  {
    var s := Section(h);
    var q7, q6 := s / 4, s / 2;
    assert 0x80 * q7 <= h < 0x80 * q7 + 0x80;
    assert h % 0x80 == h - 0x80 * q7;
    assert 0x40 * q6 <= h < 0x40 * q6 + 0x40;
    assert h % 0x40 == h - 0x40 * q6;
  }

  /** At the first hue of every section the colour is that section's anchor. */
  lemma AnchorColours(h: u8, s: u8, v: u8)
    requires h % 0x20 == 0
    ensures HSV2RGB(h, s, v) == Anchor(Section(h))
  {
    NoWrapAround(h, s, v);
    ReferenceAtStart(h);
  }

  /** One channel is off in each part of the wheel: blue before green, red from green to blue, green after. */
  lemma OneChannelOff(h: u8, s: u8, v: u8)
    ensures h < 0x60 ==> HSV2RGB(h, s, v).b == 0
    ensures 0x60 <= h < 0xA0 ==> HSV2RGB(h, s, v).r == 0
    ensures 0xA0 <= h ==> HSV2RGB(h, s, v).g == 0
  {
    NoWrapAround(h, s, v);
  }

  /** Sections 0, 3, 5 and 7 trade one channel against another at a constant total of 255. */
  lemma ConstantSum(h: u8, s: u8, v: u8)
    requires Section(h) in {0, 3, 5, 7}
    ensures var c := HSV2RGB(h, s, v); c.r + c.g + c.b == 255
  {
    NoWrapAround(h, s, v);
  }

  /** Saturation and brightness have no effect on the colour. */
  lemma SaturationValueIgnored(h: u8, s1: u8, v1: u8, s2: u8, v2: u8)
    ensures HSV2RGB(h, s1, v1) == HSV2RGB(h, s2, v2)
  {
  }

  function Dist(x: int, y: int): nat {
    if x <= y then y - x else x - y
  }

  /**
   The wheel has no jump: stepping the hue by one, including from 255 back to
   0, moves no channel by more than 7.
   */
  lemma Continuous(h: u8, s: u8, v: u8)
    ensures Close(ToLevels(HSV2RGB(h, s, v)), ToLevels(HSV2RGB(NextHue(h), s, v)))
  {
    if h % 0x20 == 0x1F {
      ContinuousAcrossSections(h);
    } else {
      ContinuousInsideSection(h);
    }
    NoWrapAround(h, s, v);
    NoWrapAround(NextHue(h), s, v);
  }

  /** The hue one step further round the wheel, `(h + 1) % 256`. */
  function NextHue(h: u8): (n: u8)
    ensures n == (h + 1) % 0x100
  {
    if h == 0xFF then 0 else h + 1
  }

  /** Levels that differ by at most 7 in every channel. */
  predicate Close(a: Levels, b: Levels) {
    Dist(a.r, b.r) <= 7 && Dist(a.g, b.g) <= 7 && Dist(a.b, b.b) <= 7
  }

  lemma ContinuousInsideSection(h: u8)
    requires h % 0x20 != 0x1F
    ensures Close(Reference(h), Reference(NextHue(h)))
  {
    var sec := Section(h);
    assert NextHue(h) == h + 1 && Section(h + 1) == sec by {
      RampStep(h);
    }
    AlongSmallStep(Anchor(sec), Slope(sec), h);
  }

  lemma AlongSmallStep(a: Rgb, d: Levels, h: u8)
    requires SlopeInRange(d) && h % 0x20 != 0x1F
    ensures h + 1 < 0x100 && Close(Along(a, d, h), Along(a, d, h + 1))
  {
    RampSmallStep(d.r, h);
    RampSmallStep(d.g, h);
    RampSmallStep(d.b, h);
  }

  lemma RampSmallStep(slope: int, h: u8)
    requires -2 <= slope <= 2
    requires h % 0x20 != 0x1F
    ensures h + 1 < 0x100 && Dist(Ramp(slope, h), Ramp(slope, h + 1)) <= 6
  {
    RampStep(h);
  }

  lemma ContinuousAcrossSections(h: u8)
    requires h % 0x20 == 0x1F
    ensures Close(Reference(h), Reference(NextHue(h)))
  {
    var sec, next := Section(h), NextHue(h);
    assert Section(next) == (sec + 1) % 8 && next % 0x20 == 0 by {
      assert h == sec * 0x20 + 0x1F;
    }
    assert Reference(h) == SectionEndLevels(sec) by {
      ReferenceAtEnd(h);
    }
    assert Reference(next) == ToLevels(Anchor((sec + 1) % 8)) by {
      ReferenceAtStart(next);
    }
    EndMeetsNextAnchor(sec);
  }

  lemma ReferenceAtEnd(h: u8)
    requires h % 0x20 == 0x1F
    ensures Reference(h) == SectionEndLevels(Section(h))
  {
    var sec := Section(h);
    AlongAtEnd(Anchor(sec), Slope(sec), h);
    EndLevelsAreMaxima(sec);
  }

  /** At the last hue of a section every ramp has moved 82 units per unit of slope. */
  lemma AlongAtEnd(a: Rgb, d: Levels, h: u8)
    requires SlopeInRange(d) && h % 0x20 == 0x1F
    ensures Along(a, d, h) == Levels(a.r + 82 * d.r, a.g + 82 * d.g, a.b + 82 * d.b)
  {
    SectionEnd(h);
  }

  lemma EndLevelsAreMaxima(s: nat)
    requires s < 8
    ensures var a, d := Anchor(s), Slope(s);
      SectionEndLevels(s) == Levels(a.r + 82 * d.r, a.g + 82 * d.g, a.b + 82 * d.b)
  {
  }

  lemma ReferenceAtStart(h: u8)
    requires h % 0x20 == 0
    ensures Reference(h) == ToLevels(Anchor(Section(h)))
  {
  }

  /** The colour at the last hue of each section, where both ramps are at their maxima. */
  function SectionEndLevels(s: nat): Levels
    requires s < 8
  {
    match s
    case 0 => Levels(173, 82, 0)
    case 1 => Levels(171, 167, 0)
    case 2 => Levels(7, 252, 0)
    case 3 => Levels(0, 173, 82)
    case 4 => Levels(0, 7, 249)
    case 5 => Levels(82, 0, 173)
    case 6 => Levels(167, 0, 89)
    case 7 => Levels(252, 0, 3)
  }

  lemma EndMeetsNextAnchor(s: nat)
    requires s < 8
    ensures Close(SectionEndLevels(s), ToLevels(Anchor((s + 1) % 8)))
  {
  }

  /** At the last hue of a section both ramps are at their maxima, 82 and 164. */
  lemma SectionEnd(h: u8)
    requires h % 0x20 == 0x1F
    ensures Third(h) == 82 && TwoThirds(h) == 164
  {
    assert Offset8(h) == 248;
  }

  /** Inside a section, one hue step raises `third` by 2 or 3 and `twothirds` by 5 or 6. */
  lemma RampStep(h: u8)
    requires h % 0x20 != 0x1F
    ensures h + 1 < 0x100 && Section(h + 1) == Section(h)
    ensures 2 <= Third(h + 1) - Third(h) <= 3
    ensures 5 <= TwoThirds(h + 1) - TwoThirds(h) <= 6
  {
    var f, s := h % 0x20, Section(h);
    assert h == s * 0x20 + f;
    assert (h + 1) % 0x20 == f + 1;
    var o := Offset8(h);
    assert o == f * 8 && Offset8(h + 1) == o + 8;
    RampsAreScales(h);
    RampsAreScales(h + 1);
    FloorStep(o, 85);
    FloorStep(o, 170);
  }

  /** `third` and `twothirds` are the position scaled by 85/256 and 170/256. */
  lemma RampsAreScales(h: u8)
    ensures Third(h) == Scale(Offset8(h), 85) && TwoThirds(h) == Scale(Offset8(h), 170)
  {
  }

  /** Raising a scaled value by 8 raises the result by ⌊8k/256⌋ or one more. */
  lemma FloorStep(x: u8, k: u8)
    requires x + 8 < 0x100
    ensures k * 8 / 0x100 <= Scale(x + 8, k) - Scale(x, k) <= k * 8 / 0x100 + 1
  {
    ScaleIsFloor(x, k);
    ScaleIsFloor(x + 8, k);
    assert (x + 8) * k == x * k + 8 * k;
  }

  /**
   The saturation and brightness code after the early return of `HSV2RGB`.
   Nothing in the program reaches it; it is kept apart so that `HSV2RGB` is
   modelled as it runs. Saturation s < 255 mixes white into the colour, by
   the video-scaled amount `desat`; brightness v < 255 scales every channel
   by v/256 and adds one.
   */
  function DesaturateAndDim(c: Rgb, s: u8, v: u8): (d: Rgb)
    ensures v == 0 ==> d == Rgb(0, 0, 0)
    ensures s == 255 && v == 255 ==> d == c
    ensures s == 0 && v == 255 ==> d == Rgb(255, 255, 255)
    // no saturation is grey, whatever the hue
    ensures s == 0 ==> d.r == d.g == d.b
    // dimmed but not switched off, every channel stays lit
    ensures v != 0 && v != 255 ==> d.r >= 1 && d.g >= 1 && d.b >= 1
    // neither step wraps, so the channels keep their order
    ensures KeepsOrder(c, d)
  {
    var w := Desaturate(c, s);
    if v != 255 then
      if v == 0 then Rgb(0, 0, 0)
      else
        Dim(w, v)
    else
      w
  }

  /** Whenever one channel of `c` is at most another, the same holds in `d`. */
  predicate KeepsOrder(c: Rgb, d: Rgb) {
    && (c.r <= c.g ==> d.r <= d.g)
    && (c.g <= c.r ==> d.g <= d.r)
    && (c.g <= c.b ==> d.g <= d.b)
    && (c.b <= c.g ==> d.b <= d.g)
    && (c.r <= c.b ==> d.r <= d.b)
    && (c.b <= c.r ==> d.b <= d.r)
  }

  /** The saturation half of the unreachable block. */
  function Desaturate(c: Rgb, s: u8): (w: Rgb)
    ensures s == 255 ==> w == c
    ensures s == 0 ==> w == Rgb(255, 255, 255)
    ensures s != 255 ==> w.r >= 1 && w.g >= 1 && w.b >= 1
    ensures KeepsOrder(c, w)
  {
    if s != 255 then
      if s == 0 then Rgb(255, 255, 255)
      else
        var desat := ScaleVideo(Sub8(255, s), Sub8(255, s));
        var satscale := Sub8(255, desat);
        assert satscale + desat == 255;
        var w := Rgb(Desat(c.r, satscale, desat), Desat(c.g, satscale, desat), Desat(c.b, satscale, desat));
        DesatMonotone(c.r, c.g, satscale, desat);
        DesatMonotone(c.g, c.r, satscale, desat);
        DesatMonotone(c.g, c.b, satscale, desat);
        DesatMonotone(c.b, c.g, satscale, desat);
        DesatMonotone(c.r, c.b, satscale, desat);
        DesatMonotone(c.b, c.r, satscale, desat);
        w
    else
      c
  }

  /** One channel of the desaturation: `if x > 0 { x = scale(x, satscale) }; x += desat`. */
  function Desat(x: u8, satscale: u8, desat: u8): (r: u8)
    ensures x == 0 ==> r == desat
    // with `satscale = 255 - desat` the addition does not wrap: the channel
    // ends at least at `desat` and rises by at most `desat`
    ensures satscale + desat == 255 ==> desat <= r <= x + desat
  {
    Add8(if x > 0 then Scale(x, satscale) else x, desat)
  }

  /**
   With `satscale = 255 - desat` the `uint8` addition never wraps, so the
   desaturated channel keeps the order of its input and is at least `desat`.
   */
  lemma DesatMonotone(x: u8, y: u8, satscale: u8, desat: u8)
    requires satscale + desat == 255
    ensures desat <= Desat(x, satscale, desat)
    ensures x <= y ==> Desat(x, satscale, desat) <= Desat(y, satscale, desat)
  {
    ScaleMonotone(x, 255, satscale, satscale);
    ScaleMonotone(y, 255, satscale, satscale);
    if x <= y {
      ScaleMonotone(x, y, satscale, satscale);
    }
    ScaleBelowFraction(255, satscale);
  }

  /** The brightness half of the unreachable block, for 0 < v < 255. */
  function Dim(w: Rgb, v: u8): (d: Rgb)
    requires v != 0 && v != 255
    ensures d.r >= 1 && d.g >= 1 && d.b >= 1
    ensures KeepsOrder(w, d)
  {
    DimMonotone(w.r, w.g, v);
    DimMonotone(w.g, w.r, v);
    DimMonotone(w.g, w.b, v);
    DimMonotone(w.b, w.g, v);
    DimMonotone(w.r, w.b, v);
    DimMonotone(w.b, w.r, v);
    Rgb(DimChannel(w.r, v), DimChannel(w.g, v), DimChannel(w.b, v))
  }

  /** One channel of the dimming: `scale(x, v) + 1`. */
  function DimChannel(x: u8, v: u8): (r: u8)
    ensures 1 <= r <= x + 1
    ensures v != 0 ==> r <= v
  {
    ScaleBelowFraction(x, v);
    Add8(Scale(x, v), 1)
  }

  /** For 0 < v < 255 the `+ 1` never wraps, so dimming keeps the order of channels and lights every one. */
  lemma DimMonotone(x: u8, y: u8, v: u8)
    requires v != 0 && v != 255
    ensures 1 <= DimChannel(x, v)
    ensures x <= y ==> DimChannel(x, v) <= DimChannel(y, v)
  {
    ScaleBelowFraction(x, v);
    ScaleBelowFraction(y, v);
    if x <= y {
      ScaleMonotone(x, y, v, v);
    }
  }

  /**
   Had the block been reachable, the brightness of 10 that fillRainbow passes
   would dim pure red to (10, 1, 1); as rainbow.go runs, red stays at full 255.
   */
  lemma DeadCodeWouldDim()
    ensures HSV2RGB(0, 255, 10) == Rgb(255, 0, 0)
    ensures DesaturateAndDim(HSV2RGB(0, 255, 10), 255, 10) == Rgb(10, 1, 1)
  {
    var red := Rgb(255, 0, 0);
    assert HSV2RGB(0, 255, 10) == red by {
      NoWrapAround(0, 255, 10);
      ReferenceAtStart(0);
    }
    assert DimChannel(255, 10) == 10 by {
      ScaleIsFloor(255, 10);
    }
    assert DesaturateAndDim(red, 255, 10) == Dim(red, 10);
  }
}
