/**
 The RGB <-> HSB (hexcone HSV) conversion pair of IOImages/ColorMode.py,
 over exact reals.

 `RgbToHsb` maps three integer channels in [0, 255] to a hue in degrees, a
 saturation and a brightness. `HsbToRgb` maps any hue (taken modulo 360) and
 any saturation and brightness (clamped into [0, 1]) back to three integer
 channels. Each is split at the point where the source works on channels
 scaled to [0, 1]: `HsbOfUnit` and `UnitOfHsb` are that unit-interval core,
 and the two outer functions add the division by 255 and the final
 `round(... * 255)`.
 */
module ColorMode {
  import opened PyNumeric

  /** An integer colour, as `hsb_to_rgb` returns it. */
  datatype Rgb = Rgb(red: int, green: int, blue: int)

  /** Hue in degrees, saturation and brightness, as `rgb_to_hsb` returns them. */
  datatype Hsb = Hsb(hue: real, saturation: real, brightness: real)

  /** Three channels scaled to [0, 1] (the source's `red_prime` and so on). */
  datatype UnitRgb = UnitRgb(r: real, g: real, b: real)

  /** An 8-bit channel value. */
  predicate IsChannel(x: int) {
    0 <= x <= 255
  }

  predicate InUnit(x: real) {
    0.0 <= x <= 1.0
  }

  predicate IsUnitRgb(u: UnitRgb) {
    InUnit(u.r) && InUnit(u.g) && InUnit(u.b)
  }

  /** Hue when red attains the maximum: 60 * ((g - b) / C % 6). When
      |g - b| <= C, as it is for red the largest channel, the hue lies
      within 60 degrees of red. */
  function HueFromRed(rp: real, gp: real, bp: real, chroma: real): (hue: real)
    requires chroma > 0.0
    ensures 0.0 <= hue < 360.0
    ensures -chroma <= gp - bp <= chroma ==> hue <= 60.0 || 300.0 <= hue
  {
    RatioWithin(gp - bp, chroma);
    WrapNearZero((gp - bp) / chroma);
    60.0 * FloatMod((gp - bp) / chroma, 6.0)
  }

  /** A ratio in [-1, 1] taken `% 6` lands in [0, 1] or [5, 6). */
  lemma WrapNearZero(q: real)
    ensures -1.0 <= q <= 1.0 ==> FloatMod(q, 6.0) <= 1.0 || 5.0 <= FloatMod(q, 6.0)
  {
    if 0.0 <= q <= 1.0 {
      FloatModOfInRange(q, 6.0);
    } else if -1.0 <= q < 0.0 {
      FloatModOfNegative(q, 6.0);
    }
  }

  /** Hue when green attains the maximum: 60 * ((b - r) / C + 2). When
      |b - r| <= C the hue lies within 60 degrees of green (120). */
  function HueFromGreen(rp: real, gp: real, bp: real, chroma: real): (hue: real)
    requires chroma > 0.0
    ensures -chroma <= bp - rp <= chroma ==> 60.0 <= hue <= 180.0
  {
    RatioWithin(bp - rp, chroma);
    60.0 * ((bp - rp) / chroma + 2.0)
  }

  /** Hue when blue attains the maximum: 60 * ((r - g) / C + 4). When
      |r - g| <= C the hue lies within 60 degrees of blue (240). */
  function HueFromBlue(rp: real, gp: real, bp: real, chroma: real): (hue: real)
    requires chroma > 0.0
    ensures -chroma <= rp - gp <= chroma ==> 180.0 <= hue <= 300.0
  {
    RatioWithin(rp - gp, chroma);
    60.0 * ((rp - gp) / chroma + 4.0)
  }

  /** `rgb_to_hsb` after the channels have been divided by 255. Brightness is
      the largest channel, saturation the chroma relative to it (0 for
      black), and the hue comes from the first of red, green, blue that
      attains the maximum (0 for an achromatic colour), reduced modulo 360. */
  function HsbOfUnit(rp: real, gp: real, bp: real): (c: Hsb)
    requires InUnit(rp) && InUnit(gp) && InUnit(bp)
    ensures 0.0 <= c.hue < 360.0
    ensures InUnit(c.saturation) && InUnit(c.brightness)
    // the brightness is the largest channel
    ensures c.brightness == rp || c.brightness == gp || c.brightness == bp
    ensures c.brightness >= rp && c.brightness >= gp && c.brightness >= bp
    ensures c.saturation == 0.0 <==> rp == gp == bp
    ensures rp == gp == bp ==> c.hue == 0.0
  {
    var maxV := Max3(rp, gp, bp);
    var minV := Min3(rp, gp, bp);
    var chroma := maxV - minV;
    var brightness := maxV;
    var saturation := if maxV == 0.0 then 0.0 else chroma / maxV;
    var hue :=
      if chroma == 0.0 then 0.0
      else if maxV == rp then HueFromRed(rp, gp, bp, chroma)
      else if maxV == gp then HueFromGreen(rp, gp, bp, chroma)
      else if maxV == bp then HueFromBlue(rp, gp, bp, chroma)
      else assert false; 0.0;
    SaturationFacts(maxV, minV, saturation);
    Hsb(FloatMod(hue, 360.0), saturation, brightness)
  }

  /** Saturation (max - min) / max lies in [0, 1], is 0 exactly when
      max == min, and max * (1 - saturation) gives back min. */
  lemma SaturationFacts(maxV: real, minV: real, s: real)
    requires 0.0 <= minV <= maxV
    requires s == if maxV == 0.0 then 0.0 else (maxV - minV) / maxV
    ensures InUnit(s)
    ensures s == 0.0 <==> maxV == minV
    ensures maxV * (1.0 - s) == minV
  {
    if maxV != 0.0 {
      assert maxV * s == maxV - minV;
      if s > 1.0 {
        MulLt(maxV, 1.0, s);
      }
      if s < 0.0 {
        MulLt(maxV, s, 0.0);
      }
      assert maxV * (1.0 - s) == maxV - maxV * s;
    }
  }

  /** `rgb_to_hsb(red, green, blue)` (IOImages/ColorMode.py, lines 7-35). The
      channels must lie in [0, 255]; the source does not check this. */
  function RgbToHsb(red: int, green: int, blue: int): (c: Hsb)
    requires IsChannel(red) && IsChannel(green) && IsChannel(blue)
    ensures 0.0 <= c.hue < 360.0
    ensures InUnit(c.saturation) && InUnit(c.brightness)
    // brightness is the largest channel over 255
    ensures 255.0 * c.brightness == red as real
         || 255.0 * c.brightness == green as real
         || 255.0 * c.brightness == blue as real
    ensures 255.0 * c.brightness >= red as real
         && 255.0 * c.brightness >= green as real
         && 255.0 * c.brightness >= blue as real
    // saturation is 0 exactly for the greys, and only black has brightness 0
    ensures c.saturation == 0.0 <==> red == green == blue
    ensures c.brightness == 0.0 <==> red == green == blue == 0
    ensures red == green == blue ==> c.hue == 0.0
  {
    HsbOfUnit(red as real / 255.0, green as real / 255.0, blue as real / 255.0)
  }

  /** The hue sextant a scaled hue `hp` (hue / 60) lies in. */
  predicate InSextant(hp: real, k: int) {
    k as real <= hp < (k + 1) as real
  }

  /** The choice of lines 49-60 of IOImages/ColorMode.py: which of chroma, X
      and 0 goes to red, green and blue in each sextant of the hue. */
  function SextantPick(hp: real, chroma: real, x: real): (u: UnitRgb)
    requires 0.0 <= hp < 6.0
    requires 0.0 <= x <= chroma
    ensures 0.0 <= u.r <= chroma && 0.0 <= u.g <= chroma && 0.0 <= u.b <= chroma
    // one channel gets the chroma and one gets 0
    ensures u.r == chroma || u.g == chroma || u.b == chroma
    ensures u.r == 0.0 || u.g == 0.0 || u.b == 0.0
  {
    if InSextant(hp, 0) then UnitRgb(chroma, x, 0.0)
    else if InSextant(hp, 1) then UnitRgb(x, chroma, 0.0)
    else if InSextant(hp, 2) then UnitRgb(0.0, chroma, x)
    else if InSextant(hp, 3) then UnitRgb(0.0, x, chroma)
    else if InSextant(hp, 4) then UnitRgb(x, 0.0, chroma)
    else if InSextant(hp, 5) then UnitRgb(chroma, 0.0, x)
    else assert false; UnitRgb(0.0, 0.0, 0.0)
  }

  /** `hsb_to_rgb` before the final scaling by 255 and rounding: the hue is
      reduced modulo 360 and saturation and brightness are clamped into
      [0, 1] (lines 40-42); the channels land in [0, 1]. */
  function UnitOfHsb(hue: real, saturation: real, brightness: real): (u: UnitRgb)
    ensures IsUnitRgb(u)
  {
    UnitOfReduced(FloatMod(hue, 360.0), Clamp01(saturation), Clamp01(brightness))
  }

  /** Lines 44-64 of IOImages/ColorMode.py, for a hue in [0, 360) and a
      saturation and brightness in [0, 1]: chroma = V * S, the scaled hue
      hp = hue / 60 and the offset m = V - chroma. */
  function UnitOfReduced(h: real, s: real, v: real): (u: UnitRgb)
    requires 0.0 <= h < 360.0 && InUnit(s) && InUnit(v)
    ensures IsUnitRgb(u)
  {
    ScaleDown(v, s);
    Assemble(h / 60.0, v * s, v)
  }

  /** The factor of line 46: X = chroma * (1 - |hp % 2 - 1|). It rises from 0
      to 1 across an even sextant and falls back across an odd one. */
  function SecondaryFactor(hp: real): (t: real)
    ensures InUnit(t)
  {
    1.0 - Abs(FloatMod(hp, 2.0) - 1.0)
  }

  /** Lines 46-64 before the scaling by 255: the secondary component X, the
      sextant choice and the offset m = v - chroma. */
  function Assemble(hp: real, chroma: real, v: real): (u: UnitRgb)
    requires 0.0 <= hp < 6.0
    requires 0.0 <= chroma <= v <= 1.0
    ensures IsUnitRgb(u)
  {
    var t := SecondaryFactor(hp);
    ScaleDown(chroma, t);
    var x := chroma * t;
    var u := SextantPick(hp, chroma, x);
    AddOffset(u, v - chroma)
  }

  /** Lines 62-64 before the scaling: the offset m is added to every channel,
      so the largest and the smallest channel both move up by m and the
      chroma between them stays the same. */
  function AddOffset(u: UnitRgb, m: real): (w: UnitRgb)
    ensures Max3(w.r, w.g, w.b) == Max3(u.r, u.g, u.b) + m
    ensures Min3(w.r, w.g, w.b) == Min3(u.r, u.g, u.b) + m
  {
    UnitRgb(u.r + m, u.g + m, u.b + m)
  }

  /** `hsb_to_rgb(hue, saturation, brightness)` (IOImages/ColorMode.py, lines
      38-66): never fails, and every channel is an integer in [0, 255]. */
  function HsbToRgb(hue: real, saturation: real, brightness: real): (c: Rgb)
    ensures IsChannel(c.red) && IsChannel(c.green) && IsChannel(c.blue)
  {
    var u := UnitOfHsb(hue, saturation, brightness);
    Rgb(Round(u.r * 255.0), Round(u.g * 255.0), Round(u.b * 255.0))
  }
}
