# go_rainbow colour core in Dafny

A model of the colour logic of `rainbow.go`, a TinyGo program that drives a
strip of ten WS2812 LEDs with a moving rainbow. The model covers four
pieces of the program:

- the 8-bit fixed-point helpers `scale` and `scale_video`;
- the FastLED-style hue wheel `HSV2RGB`;
- the unreachable saturation and brightness code that follows the wheel's
  `return`;
- the buffer filler `fillRainbow`.

All of this is 8-bit integer arithmetic and bit tests. Go's `uint8` and
`uint16` truncation is written out explicitly (`Bytes.Wrap8`,
`Bytes.Wrap16`, `Add8`, `Sub8`, `ShiftLeft3`). Go's truncating `%` is
`Bytes.GoRem256`. Because of this, every "no wrap-around" statement below is
proved, not assumed.

Files and modules:

- `bytes.dfy` (`Bytes`): `uint8`/`uint16` conversion, `uint8` addition and
  subtraction, `<< 3`, Go's `%` by 256, and the wrap-around of a 32- or
  64-bit `int`.
- `fixed_point.dfy` (`FixedPoint`): `scale` and `scale_video`.
- `color_wheel.dfy` (`ColorWheel`): `HSV2RGB`. It also holds an independent
  anchor-plus-slope description of the wheel (`Anchor`, `Slope`, `Ramp`,
  `Reference`), the wheel's properties, and the dead block as
  `DesaturateAndDim`.
- `rainbow.dfy` (`Rainbow`): `fillRainbow` as a loop over a pixel sequence,
  the whole strip as a function (`Strip`), and properties of the strip.

Bit tests appear as range and remainder checks:

- `h & 0x80 == 0` is `h < 0x80`.
- `h & 0x40 == 0` is `h % 0x80 < 0x40`.
- `h & 0x20 == 0` is `h % 0x40 < 0x20`.
- `h & 0x1F` is `h % 0x20`.

`MasksAsArithmetic` proves these four translations on `bv8`. `GuardBits`
shows that the three tests read the bits of the section number `h / 0x20`.

`HSV2RGB` returns unconditionally at rainbow.go:94. The model keeps this, so
the wheel colour depends on the hue alone (`SaturationValueIgnored`). In
particular, the brightness of 10 that `fillRainbow` passes has no effect:
pure red comes out as (255, 0, 0), not the (10, 1, 1) the unreachable code
would produce (`DeadCodeWouldDim`). The comments at rainbow.go:95 and
rainbow.go:118, and the FastLED routine that rainbow.go:29 says it adapts,
apply saturation and brightness, but the early return at rainbow.go:94
skips them. The model follows the code. `DesaturateAndDim` models lines
95-128 on their own, and nothing in the model calls it.

Two further points where the comments and the code differ:

- The comments at rainbow.go:37 and rainbow.go:59 give the ramps' maxima as
  85 and 170. In the code they stop at 82 and 164 (`Third`, `TwoThirds`),
  so a section ends a few units short of the next anchor. `Continuous`
  bounds the resulting step between neighbouring hues by 7.
- The brightness block at rainbow.go:119-122 turns a brightness of 0 into
  black. Because of the early return, that happens only in the unreachable
  block, not in `HSV2RGB` as it runs.

Go's `int` is 32 or 64 bits wide, so `offset + step*i` at rainbow.go:133
can wrap round. The model computes the sum as an unbounded integer.
`OverflowHarmless` shows this changes no hue: a wrapped sum differs from the
true one by a multiple of 2^32 or 2^64, and 256 divides both.

## Model

| member | source | states |
|---|---|---|
| `Bytes.Wrap8` | rainbow.go:17 | `uint8(x)` keeps x when it is already a byte, and otherwise differs from x by a multiple of 256 |
| `Bytes.Wrap16` | rainbow.go:17 | `uint16(x)` keeps x when it fits 16 bits, and otherwise differs from x by a multiple of 65536 |
| `Bytes.Add8` | rainbow.go:47-90 | `uint8` addition gives the sum when it is below 256, and the sum minus 256 otherwise |
| `Bytes.Sub8` | rainbow.go:47-90 | `uint8` subtraction gives the difference when it is not negative, and the difference plus 256 otherwise |
| `Bytes.GoRem256` | rainbow.go:133 | Go's `%` by 256: the remainder lies in 0..255 for a non-negative dividend and in -255..0 for a negative one, and it differs from the dividend by a multiple of 256 |
| `Bytes.GoRemToByte` | rainbow.go:133 | `uint8` of Go's truncated remainder by 256 equals the Euclidean remainder, also for negative sums |
| `Bytes.Wrap32Signed` | rainbow.go:133 | Go's 32-bit `int`: the result lies in -2^31..2^31-1, equals x when x is in that range, and differs from x by a multiple of 2^32 |
| `Bytes.Wrap64Signed` | rainbow.go:133 | Go's 64-bit `int`: the result lies in -2^63..2^63-1, equals x when x is in that range, and differs from x by a multiple of 2^64 |
| `Bytes.OverflowHarmless` | rainbow.go:133 | if `offset + step*i` wraps round in a 32- or 64-bit `int`, `uint8(... % 256)` still gives the hue of the unbounded sum |
| `Bytes.ShiftLeft3` | rainbow.go:36 | `x << 3` on a byte is `x * 8` when x < 32 (as for the 5-bit offset); the result is always a multiple of 8 |
| `FixedPoint.Scale` | rainbow.go:16-18 | `scale(value, k)` is at most `value` and at most `k`; it is 0 when either is 0 |
| `FixedPoint.ProductFits` | rainbow.go:17 | the `uint16` product of two bytes is at most 255·255, so it never wraps, and shifted right by 8 it is at most either factor |
| `FixedPoint.ScaleIsFloor` | rainbow.go:16-18 | `scale(value, k)` is exactly ⌊value·k/256⌋ |
| `FixedPoint.ScaleMonotone` | rainbow.go:16-18 | `scale` never decreases when the value or the fraction grows |
| `FixedPoint.ScaleByFull` | rainbow.go:16-18 | scaling by 255 is not the identity: it takes one off every non-zero value |
| `FixedPoint.ScaleBelowFraction` | rainbow.go:16-18 | for k > 0, `scale(value, k) < k` |
| `FixedPoint.ScaleVideo` | rainbow.go:20-26 | `scale_video` is `scale` plus 1 exactly when k ∉ {0, 255}; it is 0 for k = 0; for other k below 255 it lies in 1..k, so the `uint8` addition never wraps |
| `ColorWheel.Section` | rainbow.go:39-44 | the section picked by the guard bits is a number below 8, and h lies in the 32 hues that start at 32 times it |
| `ColorWheel.MasksAsArithmetic` | rainbow.go:35-44 | the masks `0x80`, `0x40` and `0x20` are zero exactly when h < 0x80, h mod 0x80 < 0x40 and h mod 0x40 < 0x20; `h & 0x1F` is h mod 0x20 |
| `ColorWheel.GuardBits` | rainbow.go:39-44 | the three bit tests pick out bits 2, 1 and 0 of the section number h / 32 |
| `ColorWheel.Offset8` | rainbow.go:35-36 | `offset8 = (h & 0x1F) << 3` is at most 248, and it is 0 exactly at the first hue of a section |
| `ColorWheel.Third` | rainbow.go:37 | `third` is at most 82 (not the 85 the comment names), and it is 0 exactly at the first hue of a section |
| `ColorWheel.TwoThirds` | rainbow.go:59 | `twothirds` is at most 164 (not 170), and it is 0 exactly at the first hue of a section |
| `ColorWheel.HSV2RGB` | rainbow.go:28-94 | at every hue one channel is off; `NoWrapAround`, `AnchorColours`, `OneChannelOff`, `ConstantSum`, `Continuous` and `SaturationValueIgnored` state the rest of what the wheel promises |
| `ColorWheel.NoWrapAround` | rainbow.go:39-93 | none of the `uint8` channel expressions of the eight sections wraps; the result equals the section's anchor plus a slope of ±third or ±twothirds per channel, computed in unbounded integers |
| `ColorWheel.AnchorColours` | rainbow.go:39-93 | when `h & 0x1F = 0` the colour is the section's anchor: (255,0,0), (171,85,0), (171,170,0), (0,255,0), (0,171,85), (0,0,255), (85,0,171), (170,0,85) |
| `ColorWheel.OneChannelOff` | rainbow.go:47-90 | blue is 0 for h < 0x60, red is 0 for 0x60 ≤ h < 0xA0, green is 0 for h ≥ 0xA0 |
| `ColorWheel.ConstantSum` | rainbow.go:47-90 | in sections 0, 3, 5 and 7 the channels sum to exactly 255 |
| `ColorWheel.SaturationValueIgnored` | rainbow.go:94 | because of the unconditional `return`, the colour is the same for every saturation and brightness |
| `ColorWheel.RampStep` | rainbow.go:35-37 | inside a section one hue step raises `third` by 2 or 3 and `twothirds` by 5 or 6 |
| `ColorWheel.SectionEnd` | rainbow.go:35-37 | at the last hue of a section `third` is 82 and `twothirds` is 164 |
| `ColorWheel.ReferenceAtStart` | rainbow.go:39-93 | the anchor-plus-slope description starts every section at its anchor |
| `ColorWheel.ContinuousInsideSection` | rainbow.go:39-93 | inside a section, neighbouring hues differ by at most 7 in every channel |
| `ColorWheel.ContinuousAcrossSections` | rainbow.go:39-93 | the last hue of a section and the first of the next (including 255 to 0) differ by at most 7 in every channel |
| `ColorWheel.Continuous` | rainbow.go:39-93 | the wheel has no jump: hue h and hue (h + 1) mod 256 differ by at most 7 in every channel |
| `ColorWheel.DesaturateAndDim` | rainbow.go:95-128 | the unreachable block: v = 0 gives black; s = v = 255 leaves the colour alone; s = 0 gives grey (white at v = 255); 0 < v < 255 keeps every channel at least 1; neither step wraps, so the channels keep their order |
| `ColorWheel.Desaturate` | rainbow.go:96-116 | s = 255 leaves the colour alone; s = 0 gives white; otherwise every channel is at least 1 and the channels keep their order |
| `ColorWheel.Desat` | rainbow.go:103-114 | a channel that is 0 becomes `desat`; with `satscale = 255 - desat` the channel ends between `desat` and its old value plus `desat`, so `+= desat` never wraps |
| `ColorWheel.DesatMonotone` | rainbow.go:100-114 | with `satscale = 255 - desat`, `r += desat` never wraps: a channel ends at least at `desat`, and larger inputs stay larger |
| `ColorWheel.Dim` | rainbow.go:119-126 | for 0 < v < 255 every channel is at least 1, and the channels keep their order |
| `ColorWheel.DimChannel` | rainbow.go:124 | `scale(x, v) + 1` is at least 1 and at most x + 1, and at most v when v > 0, so the `+ 1` never wraps |
| `ColorWheel.DimMonotone` | rainbow.go:124 | for 0 < v < 255, `scale(x, v) + 1` never wraps, is at least 1, and is monotone in x |
| `ColorWheel.DeadCodeWouldDim` | rainbow.go:94-128 | at hue 0 with brightness 10 the wheel gives (255,0,0); the unreachable block would have given (10,1,1) |
| `ColorWheel.NextHue` | rainbow.go:176 | the next hue round the wheel is (h + 1) mod 256 |
| `Rainbow.HueAt` | rainbow.go:133 | the hue of pixel i, `uint8((offset + step*i) % 256)`, is the Euclidean remainder of offset + step·i by 256 |
| `Rainbow.PixelOf` | rainbow.go:134-135 | the stored pixel is opaque and has one channel off; its colour is the full-brightness colour, so the brightness of 10 is lost |
| `Rainbow.FillRainbow` | rainbow.go:131-136 | the buffer keeps its length; pixel i becomes `RGBA{HSV2RGB((offset + step·i) mod 256, 255, 10), 255}` whatever it held before, so a second call with the same arguments gives the same buffer; the result equals `Strip` |
| `Rainbow.Strip` | rainbow.go:131-136 | a strip of n pixels has length n, and pixel i shows hue `(offset + step·i) mod 256` |
| `Rainbow.OffsetPeriodic` | rainbow.go:133 | adding 256 to the offset leaves every pixel unchanged |
| `Rainbow.StepPeriodic` | rainbow.go:133 | adding 256 to the step leaves every pixel unchanged |
| `Rainbow.OffsetAdvancesHue` | rainbow.go:133 | raising the offset by one moves every pixel's hue one step round the wheel |
| `Rainbow.OffsetByStepScrolls` | rainbow.go:133 | raising the offset by the step scrolls the strip by one pixel |
| `Rainbow.HueTwentyFive` | rainbow.go:47 | hue 25 lies in section 0 with third = 66 and gives (189, 66, 0) |
| `Rainbow.StripStart` | rainbow.go:131-136 | with offset 0 and step 25, as rainbow.go starts, and with any offset that is a whole number of turns and any step that is 25 modulo 256, pixel 0 is (255,0,0,255) and pixel 1 is (189,66,0,255) |

## Left out

- `main` (rainbow.go:143-190) is left out. It configures pins through the
  `machine` package and writes the buffer through the `ws2812` driver. Both
  are hardware I/O through libraries that are not part of this model.
- The goroutine with three tickers, `select` and `runtime.Gosched`, and the
  `time.Sleep` keep-alive loop (rainbow.go:153-189), are left out. Their
  point is timing and concurrency. Only the hue step `(hue + 1) % 256` is
  modelled, as `NextHue` and `OffsetAdvancesHue`.
- The `fmt.Printf` debug output in `fillRainbow` (rainbow.go:137-139) is
  left out, because it is console output only.
- The wrap-around of Go's `int` in `offset + step*i` is not carried through
  `FillRainbow`, which works on unbounded integers. This loses nothing:
  `OverflowHarmless` proves that the wrapped sum gives the same hue byte.
- `FillRainbow` takes a pixel sequence and returns the new one, instead of
  writing a Go slice in place. The writes keep the index order of
  rainbow.go.
