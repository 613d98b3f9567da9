/**
 Properties of the conversion pair in ColorMode: the exact round trips,
 hue wrap-around, input clamping, the achromatic case, the sextant choice,
 the red/green/blue tie-break and the values for the primaries, black and
 white.
 */
module ColorModeLemmas {
  import opened PyNumeric
  import opened ColorMode

  /** c * (a / c) gives back a. */
  lemma Cancel(a: real, c: real)
    requires c != 0.0
    ensures c * (a / c) == a
  {
  }

  /** A ratio a / c with 0 <= a < c lies in [0, 1). */
  lemma RatioBelowOne(a: real, c: real)
    requires 0.0 <= a < c
    ensures 0.0 <= a / c < 1.0
  {
    UnscaleUnit(c, a);
  }

  /** A ratio a / c with -c <= a < 0 lies in [-1, 0). */
  lemma RatioNegative(a: real, c: real)
    requires c > 0.0 && -c <= a < 0.0
    ensures -1.0 <= a / c < 0.0
  {
    if a == -c {
      RatioSelf(c);
      RatioNeg(0.0, c, c);
      assert a / c == -1.0;
    } else {
      UnscaleUnit(c, -a);
      assert a / c == -((-a) / c);
    }
  }

  /** A positive value divided by itself is 1. */
  lemma RatioSelf(c: real)
    requires c > 0.0
    ensures c / c == 1.0
  {
  }

  /** (b - a) / c is the negation of (a - b) / c. */
  lemma RatioNeg(a: real, b: real, c: real)
    requires c != 0.0
    ensures (b - a) / c == -((a - b) / c)
  {
  }

  /** Assemble with the secondary component X named. */
  lemma AssembleIs(hp: real, chroma: real, v: real, x: real)
    requires 0.0 <= hp < 6.0
    requires 0.0 <= chroma <= v <= 1.0
    requires x == chroma * SecondaryFactor(hp)
    requires 0.0 <= x <= chroma
    ensures Assemble(hp, chroma, v) == AddOffset(SextantPick(hp, chroma, x), v - chroma)
  {
  }

  /** The secondary component X = c * factor, once the factor is known. */
  lemma ScaledFactor(c: real, hp: real, t: real, x: real)
    requires SecondaryFactor(hp) == t && x == c * t
    ensures x == c * SecondaryFactor(hp)
  {
  }

  /** UnitOfReduced with chroma and the scaled hue named. */
  lemma ReducedIs(h: real, s: real, v: real, hp: real, chroma: real)
    requires 0.0 <= h < 360.0 && InUnit(s) && InUnit(v)
    requires hp == h / 60.0 && chroma == v * s
    ensures 0.0 <= hp < 6.0 && 0.0 <= chroma <= v
    ensures UnitOfReduced(h, s, v) == Assemble(hp, chroma, v)
  {
    ScaleDown(v, s);
  }

  /** Inside sextant k the secondary factor rises from 0 to 1 when k is even
      and falls from 1 to 0 when k is odd. */
  lemma SecondaryFactorIn(hp: real, k: int)
    requires 0 <= k < 6 && InSextant(hp, k)
    ensures SecondaryFactor(hp) == if k % 2 == 0 then hp - k as real else (k + 1) as real - hp
  {
    var q := k / 2;
    var base := 2 * q;
    assert base == k || base == k - 1;
    var r := hp - base as real;
    assert 0.0 <= r < 2.0;
    assert (hp - r) / 2.0 == q as real;
    assert ((hp - r) / 2.0).Floor == q;
    FloatModUnique(hp, 2.0, r);
  }

  /** UnitOfReduced on saturation c / mx and brightness mx, with the scaled
      hue and the secondary component named. */
  lemma Reconstruct(h: real, mx: real, c: real, hp: real, t: real, x: real)
    requires 0.0 < c <= mx <= 1.0
    requires 0.0 <= h < 360.0 && hp == h / 60.0
    requires SecondaryFactor(hp) == t && x == c * t
    requires 0.0 <= x <= c
    ensures InUnit(c / mx)
    ensures UnitOfReduced(h, c / mx, mx) == AddOffset(SextantPick(hp, c, x), mx - c)
  {
    if c < mx {
      UnscaleUnit(mx, c);
    } else {
      RatioSelf(mx);
    }
    Cancel(c, mx);
    ReducedIs(h, c / mx, mx, hp, c);
    ScaledFactor(c, hp, t, x);
    AssembleIs(hp, c, mx, x);
  }

  /** Red largest, blue smallest, green below red: sextant 0. */
  lemma RedRising(rp: real, gp: real, bp: real, c: real)
    requires InUnit(rp) && InUnit(gp) && InUnit(bp)
    requires c == rp - bp && 0.0 <= gp - bp < c
    ensures 0.0 <= HueFromRed(rp, gp, bp, c) < 360.0
    ensures InUnit(c / rp)
    ensures UnitOfReduced(HueFromRed(rp, gp, bp, c), c / rp, rp) == UnitRgb(rp, gp, bp)
  {
    RatioBelowOne(gp - bp, c);
    FloatModOfInRange((gp - bp) / c, 6.0);
    SecondaryFactorIn((gp - bp) / c, 0);
    Cancel(gp - bp, c);
    Reconstruct(HueFromRed(rp, gp, bp, c), rp, c, (gp - bp) / c, (gp - bp) / c, gp - bp);
    assert SextantPick((gp - bp) / c, c, gp - bp) == UnitRgb(c, gp - bp, 0.0);
  }

  /** When red and green share the maximum, the red and the green formulas
      give the same hue (60 degrees, yellow). */
  lemma RedGreenTie(rp: real, gp: real, bp: real, c: real)
    requires c == rp - bp && c > 0.0 && gp == rp
    ensures HueFromRed(rp, gp, bp, c) == HueFromGreen(rp, gp, bp, c) == 60.0
  {
    RatioSelf(c);
    RatioNeg(gp, bp, c);
    FloatModOfInRange((gp - bp) / c, 6.0);
  }

  /** When green and blue share the maximum, the green and the blue formulas
      give the same hue (180 degrees, cyan). */
  lemma GreenBlueTie(rp: real, gp: real, bp: real, c: real)
    requires c == gp - rp && c > 0.0 && bp == gp
    ensures HueFromGreen(rp, gp, bp, c) == HueFromBlue(rp, gp, bp, c) == 180.0
  {
    RatioSelf(c);
    RatioNeg(rp, gp, c);
  }

  /** When red and blue share the maximum, the red formula (through its
      `% 6`) and the blue formula give the same hue (300 degrees, magenta). */
  lemma RedBlueTie(rp: real, gp: real, bp: real, c: real)
    requires c == rp - gp && c > 0.0 && bp == rp
    ensures HueFromRed(rp, gp, bp, c) == HueFromBlue(rp, gp, bp, c) == 300.0
  {
    RatioSelf(c);
    RatioNeg(gp, bp, c);
    FloatModOfNegative((gp - bp) / c, 6.0);
  }

  /** Red largest, green smallest, blue above green: sextant 5, where the
      negative ratio wraps round through the `% 6`. */
  lemma RedFalling(rp: real, gp: real, bp: real, c: real)
    requires InUnit(rp) && InUnit(gp) && InUnit(bp)
    requires c == rp - gp && 0.0 < bp - gp <= c
    ensures 0.0 <= HueFromRed(rp, gp, bp, c) < 360.0
    ensures InUnit(c / rp)
    ensures UnitOfReduced(HueFromRed(rp, gp, bp, c), c / rp, rp) == UnitRgb(rp, gp, bp)
  {
    RatioNegative(gp - bp, c);
    FloatModOfNegative((gp - bp) / c, 6.0);
    SecondaryFactorIn((gp - bp) / c + 6.0, 5);
    RatioNeg(gp, bp, c);
    Cancel(bp - gp, c);
    Reconstruct(HueFromRed(rp, gp, bp, c), rp, c, (gp - bp) / c + 6.0, (bp - gp) / c, bp - gp);
    assert SextantPick((gp - bp) / c + 6.0, c, bp - gp) == UnitRgb(c, 0.0, bp - gp);
  }

  /** Green largest, red smallest, blue below green: sextant 2. */
  lemma GreenRising(rp: real, gp: real, bp: real, c: real)
    requires InUnit(rp) && InUnit(gp) && InUnit(bp)
    requires c == gp - rp && 0.0 <= bp - rp < c
    ensures 0.0 <= HueFromGreen(rp, gp, bp, c) < 360.0
    ensures InUnit(c / gp)
    ensures UnitOfReduced(HueFromGreen(rp, gp, bp, c), c / gp, gp) == UnitRgb(rp, gp, bp)
  {
    RatioBelowOne(bp - rp, c);
    SecondaryFactorIn((bp - rp) / c + 2.0, 2);
    Cancel(bp - rp, c);
    Reconstruct(HueFromGreen(rp, gp, bp, c), gp, c, (bp - rp) / c + 2.0, (bp - rp) / c, bp - rp);
    assert SextantPick((bp - rp) / c + 2.0, c, bp - rp) == UnitRgb(0.0, c, bp - rp);
  }

  /** Green largest, blue smallest, red above blue: sextant 1. */
  lemma GreenFalling(rp: real, gp: real, bp: real, c: real)
    requires InUnit(rp) && InUnit(gp) && InUnit(bp)
    requires c == gp - bp && 0.0 < rp - bp <= c
    ensures 0.0 <= HueFromGreen(rp, gp, bp, c) < 360.0
    ensures InUnit(c / gp)
    ensures UnitOfReduced(HueFromGreen(rp, gp, bp, c), c / gp, gp) == UnitRgb(rp, gp, bp)
  {
    RatioNegative(bp - rp, c);
    SecondaryFactorIn((bp - rp) / c + 2.0, 1);
    RatioNeg(bp, rp, c);
    Cancel(rp - bp, c);
    Reconstruct(HueFromGreen(rp, gp, bp, c), gp, c, (bp - rp) / c + 2.0, (rp - bp) / c, rp - bp);
    assert SextantPick((bp - rp) / c + 2.0, c, rp - bp) == UnitRgb(rp - bp, c, 0.0);
  }

  /** Blue largest, green smallest, red below blue: sextant 4. */
  lemma BlueRising(rp: real, gp: real, bp: real, c: real)
    requires InUnit(rp) && InUnit(gp) && InUnit(bp)
    requires c == bp - gp && 0.0 <= rp - gp < c
    ensures 0.0 <= HueFromBlue(rp, gp, bp, c) < 360.0
    ensures InUnit(c / bp)
    ensures UnitOfReduced(HueFromBlue(rp, gp, bp, c), c / bp, bp) == UnitRgb(rp, gp, bp)
  {
    RatioBelowOne(rp - gp, c);
    SecondaryFactorIn((rp - gp) / c + 4.0, 4);
    Cancel(rp - gp, c);
    Reconstruct(HueFromBlue(rp, gp, bp, c), bp, c, (rp - gp) / c + 4.0, (rp - gp) / c, rp - gp);
    assert SextantPick((rp - gp) / c + 4.0, c, rp - gp) == UnitRgb(rp - gp, 0.0, c);
  }

  /** Blue largest, red smallest, green above red: sextant 3. */
  lemma BlueFalling(rp: real, gp: real, bp: real, c: real)
    requires InUnit(rp) && InUnit(gp) && InUnit(bp)
    requires c == bp - rp && 0.0 < gp - rp <= c
    ensures 0.0 <= HueFromBlue(rp, gp, bp, c) < 360.0
    ensures InUnit(c / bp)
    ensures UnitOfReduced(HueFromBlue(rp, gp, bp, c), c / bp, bp) == UnitRgb(rp, gp, bp)
  {
    RatioNegative(rp - gp, c);
    SecondaryFactorIn((rp - gp) / c + 4.0, 3);
    RatioNeg(rp, gp, c);
    Cancel(gp - rp, c);
    Reconstruct(HueFromBlue(rp, gp, bp, c), bp, c, (rp - gp) / c + 4.0, (gp - rp) / c, gp - rp);
    assert SextantPick((rp - gp) / c + 4.0, c, gp - rp) == UnitRgb(0.0, gp - rp, c);
  }

  /** The red branch of HsbOfUnit inverts: red is the largest channel. */
  lemma RedMaxRoundTrip(rp: real, gp: real, bp: real, c: real)
    requires InUnit(rp) && InUnit(gp) && InUnit(bp)
    requires rp >= gp && rp >= bp && c == rp - Min3(rp, gp, bp) && c > 0.0
    ensures 0.0 <= HueFromRed(rp, gp, bp, c) < 360.0
    ensures InUnit(c / rp)
    ensures UnitOfReduced(HueFromRed(rp, gp, bp, c), c / rp, rp) == UnitRgb(rp, gp, bp)
  {
    if gp >= bp {
      assert Min3(rp, gp, bp) == bp;
      if gp - bp < c {
        RedRising(rp, gp, bp, c);
      } else {
        RedGreenTie(rp, gp, bp, c);
        GreenFalling(rp, gp, bp, c);
      }
    } else {
      assert Min3(rp, gp, bp) == gp;
      RedFalling(rp, gp, bp, c);
    }
  }

  /** The green branch of HsbOfUnit inverts: green is the largest channel and
      red is below it. */
  lemma GreenMaxRoundTrip(rp: real, gp: real, bp: real, c: real)
    requires InUnit(rp) && InUnit(gp) && InUnit(bp)
    requires gp > rp && gp >= bp && c == gp - Min3(rp, gp, bp) && c > 0.0
    ensures 0.0 <= HueFromGreen(rp, gp, bp, c) < 360.0
    ensures InUnit(c / gp)
    ensures UnitOfReduced(HueFromGreen(rp, gp, bp, c), c / gp, gp) == UnitRgb(rp, gp, bp)
  {
    if bp >= rp {
      assert Min3(rp, gp, bp) == rp;
      if bp - rp < c {
        GreenRising(rp, gp, bp, c);
      } else {
        GreenBlueTie(rp, gp, bp, c);
        BlueFalling(rp, gp, bp, c);
      }
    } else {
      assert Min3(rp, gp, bp) == bp;
      GreenFalling(rp, gp, bp, c);
    }
  }

  /** The blue branch of HsbOfUnit inverts: blue is the largest channel and
      red and green are below it. */
  lemma BlueMaxRoundTrip(rp: real, gp: real, bp: real, c: real)
    requires InUnit(rp) && InUnit(gp) && InUnit(bp)
    requires bp > rp && bp > gp && c == bp - Min3(rp, gp, bp) && c > 0.0
    ensures 0.0 <= HueFromBlue(rp, gp, bp, c) < 360.0
    ensures InUnit(c / bp)
    ensures UnitOfReduced(HueFromBlue(rp, gp, bp, c), c / bp, bp) == UnitRgb(rp, gp, bp)
  {
    if rp >= gp {
      assert Min3(rp, gp, bp) == gp;
      BlueRising(rp, gp, bp, c);
    } else {
      assert Min3(rp, gp, bp) == rp;
      BlueFalling(rp, gp, bp, c);
    }
  }

  /** Without saturation there is no chroma: whatever the hue, every channel
      equals the brightness. */
  lemma GreyReduced(h: real, v: real)
    requires 0.0 <= h < 360.0 && InUnit(v)
    ensures UnitOfReduced(h, 0.0, v) == UnitRgb(v, v, v)
  {
    ReducedIs(h, 0.0, v, h / 60.0, 0.0);
    AssembleIs(h / 60.0, 0.0, v, 0.0);
  }

  /** On channels in [0, 1], converting to HSB and back gives the channels
      again, exactly. */
  lemma UnitRoundTrip(rp: real, gp: real, bp: real)
    requires InUnit(rp) && InUnit(gp) && InUnit(bp)
    ensures var c := HsbOfUnit(rp, gp, bp);
            UnitOfHsb(c.hue, c.saturation, c.brightness) == UnitRgb(rp, gp, bp)
  {
    var c := HsbOfUnit(rp, gp, bp);
    var mx := Max3(rp, gp, bp);
    var ch := mx - Min3(rp, gp, bp);
    FloatModOfInRange(c.hue, 360.0);
    if ch == 0.0 {
      FloatModOfInRange(0.0, 360.0);
      assert c == Hsb(0.0, 0.0, rp);
      GreyReduced(0.0, rp);
    } else if mx == rp {
      RedMaxRoundTrip(rp, gp, bp, ch);
      FloatModOfInRange(HueFromRed(rp, gp, bp, ch), 360.0);
      assert c == Hsb(HueFromRed(rp, gp, bp, ch), ch / rp, rp);
    } else if mx == gp {
      GreenMaxRoundTrip(rp, gp, bp, ch);
      FloatModOfInRange(HueFromGreen(rp, gp, bp, ch), 360.0);
      assert c == Hsb(HueFromGreen(rp, gp, bp, ch), ch / gp, gp);
    } else {
      BlueMaxRoundTrip(rp, gp, bp, ch);
      FloatModOfInRange(HueFromBlue(rp, gp, bp, ch), 360.0);
      assert c == Hsb(HueFromBlue(rp, gp, bp, ch), ch / bp, bp);
    }
  }

  /** The headline property: for every colour with channels in [0, 255],
      `hsb_to_rgb(*rgb_to_hsb(r, g, b)) == (r, g, b)` exactly. */
  lemma RoundTrip(red: int, green: int, blue: int)
    requires IsChannel(red) && IsChannel(green) && IsChannel(blue)
    ensures var c := RgbToHsb(red, green, blue);
            HsbToRgb(c.hue, c.saturation, c.brightness) == Rgb(red, green, blue)
  {
    var rp, gp, bp := red as real / 255.0, green as real / 255.0, blue as real / 255.0;
    UnitRoundTrip(rp, gp, bp);
    assert rp * 255.0 == red as real;
    assert gp * 255.0 == green as real;
    assert bp * 255.0 == blue as real;
    RoundOfInt(red);
    RoundOfInt(green);
    RoundOfInt(blue);
  }

  /** Adding whole turns to the hue does not change the channels in [0, 1]. */
  lemma UnitHueWrap(hue: real, saturation: real, brightness: real, k: int)
    ensures UnitOfHsb(hue + k as real * 360.0, saturation, brightness)
         == UnitOfHsb(hue, saturation, brightness)
  {
    FloatModShift(hue, 360.0, k);
  }

  /** `hsb_to_rgb` looks at the hue only modulo 360: adding whole turns
      changes nothing. */
  lemma HueWrap(hue: real, saturation: real, brightness: real, k: int)
    ensures HsbToRgb(hue + k as real * 360.0, saturation, brightness)
         == HsbToRgb(hue, saturation, brightness)
  {
    UnitHueWrap(hue, saturation, brightness, k);
  }

  /** UnitOfHsb sees only the reduced hue and the clamped saturation and
      brightness. */
  lemma UnitNormalizedInputs(hue: real, saturation: real, brightness: real)
    ensures UnitOfHsb(FloatMod(hue, 360.0), Clamp01(saturation), Clamp01(brightness))
         == UnitOfHsb(hue, saturation, brightness)
  {
    FloatModOfInRange(FloatMod(hue, 360.0), 360.0);
  }

  /** `hsb_to_rgb` sees only the reduced hue and the clamped saturation and
      brightness: feeding those in directly gives the same colour. */
  lemma NormalizedInputs(hue: real, saturation: real, brightness: real)
    ensures HsbToRgb(FloatMod(hue, 360.0), Clamp01(saturation), Clamp01(brightness))
         == HsbToRgb(hue, saturation, brightness)
  {
    UnitNormalizedInputs(hue, saturation, brightness);
  }

  /** With no saturation (0 or below, after clamping) every hue gives the
      grey whose channels all equal the clamped brightness. */
  lemma UnitAchromatic(hue: real, saturation: real, brightness: real)
    requires saturation <= 0.0
    ensures var v := Clamp01(brightness);
            UnitOfHsb(hue, saturation, brightness) == UnitRgb(v, v, v)
  {
    assert Clamp01(saturation) == 0.0;
    GreyReduced(FloatMod(hue, 360.0), Clamp01(brightness));
  }

  /** With no saturation every hue gives the grey whose three channels are
      round(255 * brightness). */
  lemma Achromatic(hue: real, saturation: real, brightness: real)
    requires saturation <= 0.0
    ensures var c := HsbToRgb(hue, saturation, brightness);
            c.red == c.green == c.blue == Round(Clamp01(brightness) * 255.0)
  {
    UnitAchromatic(hue, saturation, brightness);
  }

  /** The six tests of lines 49-60 cover [0, 6) and never overlap: exactly
      one sextant, the whole part of hp, matches. */
  lemma SextantExactlyOne(hp: real)
    requires 0.0 <= hp < 6.0
    ensures 0 <= hp.Floor < 6 && InSextant(hp, hp.Floor)
    ensures forall k :: InSextant(hp, k) ==> k == hp.Floor
  {
  }

  /** Brightness times (1 - saturation) gives back the smallest channel, so
      brightness and saturation together fix both extremes of the colour. */
  lemma SmallestChannel(rp: real, gp: real, bp: real)
    requires InUnit(rp) && InUnit(gp) && InUnit(bp)
    ensures var c := HsbOfUnit(rp, gp, bp);
            c.brightness * (1.0 - c.saturation) == Min3(rp, gp, bp)
  {
    var mx := Max3(rp, gp, bp);
    var mn := Min3(rp, gp, bp);
    var sat := if mx == 0.0 then 0.0 else (mx - mn) / mx;
    SaturationFacts(mx, mn, sat);
    assert HsbOfUnit(rp, gp, bp).saturation == sat;
    assert HsbOfUnit(rp, gp, bp).brightness == mx;
  }

  /** Every colour `hsb_to_rgb` produces, before scaling, has the clamped
      brightness as its largest channel and brightness * (1 - saturation) as
      its smallest: the inverse of how `rgb_to_hsb` reads them off. */
  lemma UnitExtremes(hue: real, saturation: real, brightness: real)
    ensures var u := UnitOfHsb(hue, saturation, brightness);
            var s, v := Clamp01(saturation), Clamp01(brightness);
            Max3(u.r, u.g, u.b) == v && Min3(u.r, u.g, u.b) == v * (1.0 - s)
  {
    var h, s, v := FloatMod(hue, 360.0), Clamp01(saturation), Clamp01(brightness);
    ReducedIs(h, s, v, h / 60.0, v * s);
    AssembleExtremes(h / 60.0, v * s, v);
  }

  /** Converting an HSB triple to channels and back gives the clamped
      brightness back, and the clamped saturation too unless the brightness
      is 0 (black carries no saturation). */
  lemma SaturationBrightnessBack(hue: real, saturation: real, brightness: real)
    ensures var u := UnitOfHsb(hue, saturation, brightness);
            var c := HsbOfUnit(u.r, u.g, u.b);
            c.brightness == Clamp01(brightness)
            && (Clamp01(brightness) > 0.0 ==> c.saturation == Clamp01(saturation))
  {
    UnitExtremes(hue, saturation, brightness);
    HsbOfExtremes(UnitOfHsb(hue, saturation, brightness), Clamp01(saturation), Clamp01(brightness));
  }

  /** Channels whose largest is v and smallest v * (1 - s) read as
      brightness v and, unless v is 0, saturation s. */
  lemma HsbOfExtremes(u: UnitRgb, s: real, v: real)
    requires IsUnitRgb(u) && InUnit(s)
    requires Max3(u.r, u.g, u.b) == v && Min3(u.r, u.g, u.b) == v * (1.0 - s)
    ensures HsbOfUnit(u.r, u.g, u.b).brightness == v
    ensures v > 0.0 ==> HsbOfUnit(u.r, u.g, u.b).saturation == s
  {
    var mx, mn := Max3(u.r, u.g, u.b), Min3(u.r, u.g, u.b);
    SaturationFacts(mx, mn, if mx == 0.0 then 0.0 else (mx - mn) / mx);
    if v > 0.0 {
      SaturationOfExtremes(s, v, mx, mn);
    }
  }

  /** (v - v * (1 - s)) / v == s */
  lemma SaturationOfExtremes(s: real, v: real, mx: real, mn: real)
    requires 0.0 < v
    requires mx == v && mn == v * (1.0 - s)
    ensures (mx - mn) / mx == s
  {
    assert mx - mn == v * s;
  }

  /** The offset lifts the chroma channel to v and the zero channel to
      v - chroma. */
  lemma AssembleExtremes(hp: real, chroma: real, v: real)
    requires 0.0 <= hp < 6.0
    requires 0.0 <= chroma <= v <= 1.0
    ensures var u := Assemble(hp, chroma, v);
            Max3(u.r, u.g, u.b) == v && Min3(u.r, u.g, u.b) == v - chroma
  {
    var x := chroma * SecondaryFactor(hp);
    ScaleDown(chroma, SecondaryFactor(hp));
    AssembleIs(hp, chroma, v, x);
    OffsetExtremes(SextantPick(hp, chroma, x), chroma, v - chroma);
  }

  /** Channels in [0, chroma], one of them chroma and one 0, shifted by m. */
  lemma OffsetExtremes(p: UnitRgb, chroma: real, m: real)
    requires 0.0 <= p.r <= chroma && 0.0 <= p.g <= chroma && 0.0 <= p.b <= chroma
    requires p.r == chroma || p.g == chroma || p.b == chroma
    requires p.r == 0.0 || p.g == 0.0 || p.b == 0.0
    ensures var u := AddOffset(p, m);
            Max3(u.r, u.g, u.b) == chroma + m && Min3(u.r, u.g, u.b) == m
  {
  }

  /** When red is a largest channel of a colour, HsbOfUnit takes the red
      formula: red wins every tie. */
  lemma HsbRedMax(rp: real, gp: real, bp: real, ch: real)
    requires InUnit(rp) && InUnit(gp) && InUnit(bp)
    requires rp >= gp && rp >= bp
    requires ch == Max3(rp, gp, bp) - Min3(rp, gp, bp) && ch > 0.0
    ensures HsbOfUnit(rp, gp, bp) == Hsb(FloatMod(HueFromRed(rp, gp, bp, ch), 360.0), ch / rp, rp)
  {
    assert Max3(rp, gp, bp) == rp;
  }

  /** When green is a largest channel and red is below it, HsbOfUnit takes
      the green formula: green wins a tie with blue. */
  lemma HsbGreenMax(rp: real, gp: real, bp: real, ch: real)
    requires InUnit(rp) && InUnit(gp) && InUnit(bp)
    requires gp > rp && gp >= bp
    requires ch == Max3(rp, gp, bp) - Min3(rp, gp, bp) && ch > 0.0
    ensures HsbOfUnit(rp, gp, bp) == Hsb(FloatMod(HueFromGreen(rp, gp, bp, ch), 360.0), ch / gp, gp)
  {
    assert Max3(rp, gp, bp) == gp;
  }

  /** When blue is strictly the largest channel, HsbOfUnit takes the blue
      formula. */
  lemma HsbBlueMax(rp: real, gp: real, bp: real, ch: real)
    requires InUnit(rp) && InUnit(gp) && InUnit(bp)
    requires bp > rp && bp > gp
    requires ch == Max3(rp, gp, bp) - Min3(rp, gp, bp) && ch > 0.0
    ensures HsbOfUnit(rp, gp, bp) == Hsb(FloatMod(HueFromBlue(rp, gp, bp, ch), 360.0), ch / bp, bp)
  {
    assert Max3(rp, gp, bp) == bp;
  }

  /** A ratio x / c with 0 < x <= c lies in (0, 1]. */
  lemma RatioUpToOne(x: real, c: real)
    requires 0.0 < x <= c
    ensures 0.0 < x / c <= 1.0
  {
    if x < c {
      UnscaleUnit(c, x);
    } else {
      RatioSelf(c);
    }
    Cancel(x, c);
  }

  // Reading a colour back. Each ReadSextant lemma takes the channels that
  // `hsb_to_rgb` builds in one sextant (chroma c, secondary component x,
  // brightness v, offset v - c) and shows which formula HsbOfUnit applies to them and what
  // hue, saturation and brightness it reads off. The sextant edges where two
  // channels tie are read by the first of red, green, blue, as the source
  // tests them.

  /** Sextant 0: (c, x, 0) + m, red largest. */
  lemma ReadSextant0(c: real, x: real, v: real)
    requires 0.0 < c <= v <= 1.0 && 0.0 <= x < c
    ensures var u := AddOffset(UnitRgb(c, x, 0.0), v - c);
            HsbOfUnit(u.r, u.g, u.b) == Hsb(60.0 * (x / c), c / v, v)
  {
    var rp, gp, bp := c + (v - c), x + (v - c), 0.0 + (v - c);
    assert c + (v - c) == v;
    assert Min3(rp, gp, bp) == bp;
    HsbRedMax(rp, gp, bp, c);
    assert gp - bp == x;
    RatioBelowOne(x, c);
    FloatModOfInRange((gp - bp) / c, 6.0);
    FloatModOfInRange(HueFromRed(rp, gp, bp, c), 360.0);
  }

  /** Sextant 1: (x, c, 0) + m, green largest; at x == c red ties with green
      and the red formula gives the same hue, 60. */
  lemma ReadSextant1(c: real, x: real, v: real)
    requires 0.0 < c <= v <= 1.0 && 0.0 < x <= c
    ensures var u := AddOffset(UnitRgb(x, c, 0.0), v - c);
            HsbOfUnit(u.r, u.g, u.b) == Hsb(60.0 * (2.0 - x / c), c / v, v)
  {
    var rp, gp, bp := x + (v - c), c + (v - c), 0.0 + (v - c);
    assert c + (v - c) == v;
    assert Min3(rp, gp, bp) == bp;
    RatioUpToOne(x, c);
    if x < c {
      HsbGreenMax(rp, gp, bp, c);
      assert bp - rp == 0.0 - x;
      RatioNeg(x, 0.0, c);
      FloatModOfInRange(HueFromGreen(rp, gp, bp, c), 360.0);
    } else {
      HsbRedMax(rp, gp, bp, c);
      RatioSelf(c);
      assert gp - bp == c;
      FloatModOfInRange((gp - bp) / c, 6.0);
      FloatModOfInRange(HueFromRed(rp, gp, bp, c), 360.0);
    }
  }

  /** Sextant 2: (0, c, x) + m, green largest. */
  lemma ReadSextant2(c: real, x: real, v: real)
    requires 0.0 < c <= v <= 1.0 && 0.0 <= x < c
    ensures var u := AddOffset(UnitRgb(0.0, c, x), v - c);
            HsbOfUnit(u.r, u.g, u.b) == Hsb(60.0 * (2.0 + x / c), c / v, v)
  {
    var rp, gp, bp := 0.0 + (v - c), c + (v - c), x + (v - c);
    assert c + (v - c) == v;
    assert Min3(rp, gp, bp) == rp;
    HsbGreenMax(rp, gp, bp, c);
    assert bp - rp == x;
    RatioBelowOne(x, c);
    FloatModOfInRange(HueFromGreen(rp, gp, bp, c), 360.0);
  }

  /** Sextant 3: (0, x, c) + m, blue largest; at x == c green ties with blue
      and the green formula gives the same hue, 180. */
  lemma ReadSextant3(c: real, x: real, v: real)
    requires 0.0 < c <= v <= 1.0 && 0.0 < x <= c
    ensures var u := AddOffset(UnitRgb(0.0, x, c), v - c);
            HsbOfUnit(u.r, u.g, u.b) == Hsb(60.0 * (4.0 - x / c), c / v, v)
  {
    var rp, gp, bp := 0.0 + (v - c), x + (v - c), c + (v - c);
    assert c + (v - c) == v;
    assert Min3(rp, gp, bp) == rp;
    RatioUpToOne(x, c);
    if x < c {
      HsbBlueMax(rp, gp, bp, c);
      assert rp - gp == 0.0 - x;
      RatioNeg(x, 0.0, c);
      FloatModOfInRange(HueFromBlue(rp, gp, bp, c), 360.0);
    } else {
      HsbGreenMax(rp, gp, bp, c);
      RatioSelf(c);
      assert bp - rp == c;
      FloatModOfInRange(HueFromGreen(rp, gp, bp, c), 360.0);
    }
  }

  /** Sextant 4: (x, 0, c) + m, blue largest. */
  lemma ReadSextant4(c: real, x: real, v: real)
    requires 0.0 < c <= v <= 1.0 && 0.0 <= x < c
    ensures var u := AddOffset(UnitRgb(x, 0.0, c), v - c);
            HsbOfUnit(u.r, u.g, u.b) == Hsb(60.0 * (4.0 + x / c), c / v, v)
  {
    var rp, gp, bp := x + (v - c), 0.0 + (v - c), c + (v - c);
    assert c + (v - c) == v;
    assert Min3(rp, gp, bp) == gp;
    HsbBlueMax(rp, gp, bp, c);
    assert rp - gp == x;
    RatioBelowOne(x, c);
    FloatModOfInRange(HueFromBlue(rp, gp, bp, c), 360.0);
  }

  /** Sextant 5: (c, 0, x) + m, red largest (red also wins the tie with blue
      at x == c); the negative ratio wraps round through the `% 6`. */
  lemma ReadSextant5(c: real, x: real, v: real)
    requires 0.0 < c <= v <= 1.0 && 0.0 < x <= c
    ensures var u := AddOffset(UnitRgb(c, 0.0, x), v - c);
            HsbOfUnit(u.r, u.g, u.b) == Hsb(60.0 * (6.0 - x / c), c / v, v)
  {
    var rp, gp, bp := c + (v - c), 0.0 + (v - c), x + (v - c);
    assert c + (v - c) == v;
    assert Min3(rp, gp, bp) == gp;
    HsbRedMax(rp, gp, bp, c);
    RatioUpToOne(x, c);
    assert gp - bp == 0.0 - x;
    RatioNeg(x, 0.0, c);
    FloatModOfNegative((gp - bp) / c, 6.0);
    FloatModOfInRange(HueFromRed(rp, gp, bp, c), 360.0);
  }

  /** The arithmetic of one sextant: chroma c = v * s and X = c * t. */
  lemma SextantArith(v: real, s: real, t: real, c: real, x: real)
    requires 0.0 < v <= 1.0 && 0.0 < s <= 1.0 && 0.0 <= t <= 1.0
    requires c == v * s && x == c * t
    ensures 0.0 < c <= v && c / v == s
    ensures 0.0 <= x <= c && x / c == t
    ensures t < 1.0 ==> x < c
    ensures t > 0.0 ==> x > 0.0
  {
    ProductIn(v, s, c);
    ProductIn(c, t, x);
  }

  /** A product p = a * b with a > 0 and b in [0, 1] lies in [0, a], is
      below a exactly when b < 1, is positive exactly when b > 0, and gives
      back b when divided by a. */
  lemma ProductIn(a: real, b: real, p: real)
    requires a > 0.0 && 0.0 <= b <= 1.0 && p == a * b
    ensures 0.0 <= p <= a && p / a == b
    ensures b < 1.0 ==> p < a
    ensures b > 0.0 ==> p > 0.0
  {
    ScaleDown(a, b);
    if b < 1.0 {
      MulLt(a, b, 1.0);
    }
    if b > 0.0 {
      MulLt(a, 0.0, b);
    }
    DivOfMul(a, b, p);
  }

  /** The product p = a * b divided by a gives back b. */
  lemma DivOfMul(a: real, b: real, p: real)
    requires a != 0.0 && p == a * b
    ensures p / a == b
  {
  }

  /** Sextant 0: the channels read back as the hue, saturation and
      brightness they were built from. */
  lemma BackSextant0(h: real, s: real, v: real)
    requires 0.0 <= h < 360.0 && 0.0 < s <= 1.0 && 0.0 < v <= 1.0
    requires InSextant(h / 60.0, 0)
    ensures var u := UnitOfReduced(h, s, v);
            HsbOfUnit(u.r, u.g, u.b) == Hsb(h, s, v)
  {
    var hp, c := h / 60.0, v * s;
    SecondaryFactorIn(hp, 0);
    var t := hp - 0.0;
    var x := c * t;
    SextantArith(v, s, t, c, x);
    Reconstruct(h, v, c, hp, t, x);
    assert SextantPick(hp, c, x) == UnitRgb(c, x, 0.0);
    ReadSextant0(c, x, v);
  }

  /** Sextant 1: the channels read back as the hue, saturation and
      brightness they were built from. */
  lemma BackSextant1(h: real, s: real, v: real)
    requires 0.0 <= h < 360.0 && 0.0 < s <= 1.0 && 0.0 < v <= 1.0
    requires InSextant(h / 60.0, 1)
    ensures var u := UnitOfReduced(h, s, v);
            HsbOfUnit(u.r, u.g, u.b) == Hsb(h, s, v)
  {
    var hp, c := h / 60.0, v * s;
    SecondaryFactorIn(hp, 1);
    var t := 2.0 - hp;
    var x := c * t;
    SextantArith(v, s, t, c, x);
    Reconstruct(h, v, c, hp, t, x);
    assert SextantPick(hp, c, x) == UnitRgb(x, c, 0.0);
    ReadSextant1(c, x, v);
  }

  /** Sextant 2: the channels read back as the hue, saturation and
      brightness they were built from. */
  lemma BackSextant2(h: real, s: real, v: real)
    requires 0.0 <= h < 360.0 && 0.0 < s <= 1.0 && 0.0 < v <= 1.0
    requires InSextant(h / 60.0, 2)
    ensures var u := UnitOfReduced(h, s, v);
            HsbOfUnit(u.r, u.g, u.b) == Hsb(h, s, v)
  {
    var hp, c := h / 60.0, v * s;
    SecondaryFactorIn(hp, 2);
    var t := hp - 2.0;
    var x := c * t;
    SextantArith(v, s, t, c, x);
    Reconstruct(h, v, c, hp, t, x);
    assert SextantPick(hp, c, x) == UnitRgb(0.0, c, x);
    ReadSextant2(c, x, v);
  }

  /** Sextant 3: the channels read back as the hue, saturation and
      brightness they were built from. */
  lemma BackSextant3(h: real, s: real, v: real)
    requires 0.0 <= h < 360.0 && 0.0 < s <= 1.0 && 0.0 < v <= 1.0
    requires InSextant(h / 60.0, 3)
    ensures var u := UnitOfReduced(h, s, v);
            HsbOfUnit(u.r, u.g, u.b) == Hsb(h, s, v)
  {
    var hp, c := h / 60.0, v * s;
    SecondaryFactorIn(hp, 3);
    var t := 4.0 - hp;
    var x := c * t;
    SextantArith(v, s, t, c, x);
    Reconstruct(h, v, c, hp, t, x);
    assert SextantPick(hp, c, x) == UnitRgb(0.0, x, c);
    ReadSextant3(c, x, v);
  }

  /** Sextant 4: the channels read back as the hue, saturation and
      brightness they were built from. */
  lemma BackSextant4(h: real, s: real, v: real)
    requires 0.0 <= h < 360.0 && 0.0 < s <= 1.0 && 0.0 < v <= 1.0
    requires InSextant(h / 60.0, 4)
    ensures var u := UnitOfReduced(h, s, v);
            HsbOfUnit(u.r, u.g, u.b) == Hsb(h, s, v)
  {
    var hp, c := h / 60.0, v * s;
    SecondaryFactorIn(hp, 4);
    var t := hp - 4.0;
    var x := c * t;
    SextantArith(v, s, t, c, x);
    Reconstruct(h, v, c, hp, t, x);
    assert SextantPick(hp, c, x) == UnitRgb(x, 0.0, c);
    ReadSextant4(c, x, v);
  }

  /** Sextant 5: the channels read back as the hue, saturation and
      brightness they were built from. */
  lemma BackSextant5(h: real, s: real, v: real)
    requires 0.0 <= h < 360.0 && 0.0 < s <= 1.0 && 0.0 < v <= 1.0
    requires InSextant(h / 60.0, 5)
    ensures var u := UnitOfReduced(h, s, v);
            HsbOfUnit(u.r, u.g, u.b) == Hsb(h, s, v)
  {
    var hp, c := h / 60.0, v * s;
    SecondaryFactorIn(hp, 5);
    var t := 6.0 - hp;
    var x := c * t;
    SextantArith(v, s, t, c, x);
    Reconstruct(h, v, c, hp, t, x);
    assert SextantPick(hp, c, x) == UnitRgb(c, 0.0, x);
    ReadSextant5(c, x, v);
  }

  /** The other half of the round trip: on a reduced hue and a positive
      saturation and brightness, converting HSB to channels and back gives
      the same hue, saturation and brightness, exactly. */
  lemma UnitHsbRoundTrip(h: real, s: real, v: real)
    requires 0.0 <= h < 360.0 && 0.0 < s <= 1.0 && 0.0 < v <= 1.0
    ensures var u := UnitOfReduced(h, s, v);
            HsbOfUnit(u.r, u.g, u.b) == Hsb(h, s, v)
  {
    SextantExactlyOne(h / 60.0);
    var k := (h / 60.0).Floor;
    if k == 0 {
      BackSextant0(h, s, v);
    } else if k == 1 {
      BackSextant1(h, s, v);
    } else if k == 2 {
      BackSextant2(h, s, v);
    } else if k == 3 {
      BackSextant3(h, s, v);
    } else if k == 4 {
      BackSextant4(h, s, v);
    } else {
      BackSextant5(h, s, v);
    }
  }

  /** For any hue and any saturation and brightness above 0, converting to
      channels (before the scaling by 255) and back gives the hue modulo 360
      and the clamped saturation and brightness. */
  lemma HsbBack(hue: real, saturation: real, brightness: real)
    requires saturation > 0.0 && brightness > 0.0
    ensures var u := UnitOfHsb(hue, saturation, brightness);
            HsbOfUnit(u.r, u.g, u.b)
              == Hsb(FloatMod(hue, 360.0), Clamp01(saturation), Clamp01(brightness))
  {
    UnitHsbRoundTrip(FloatMod(hue, 360.0), Clamp01(saturation), Clamp01(brightness));
  }

  /** A colour whose green and blue are equal and below its red lies on the
      red axis: hue 0. */
  lemma RedAxis(rp: real, gp: real)
    requires 0.0 <= gp < rp <= 1.0
    ensures HsbOfUnit(rp, gp, gp) == Hsb(0.0, (rp - gp) / rp, rp)
  {
    assert Min3(rp, gp, gp) == gp;
    HsbRedMax(rp, gp, gp, rp - gp);
    RedAxisHue(rp, gp, rp - gp);
  }

  /** The hue term of RedAxis: 60 * (0 % 6) % 360 is 0. */
  lemma RedAxisHue(rp: real, gp: real, ch: real)
    requires ch > 0.0
    ensures FloatMod(HueFromRed(rp, gp, gp, ch), 360.0) == 0.0
  {
    assert (gp - gp) / ch == 0.0;
    FloatModOfInRange((gp - gp) / ch, 6.0);
    assert HueFromRed(rp, gp, gp, ch) == 0.0;
    FloatModOfInRange(HueFromRed(rp, gp, gp, ch), 360.0);
  }

  /** A colour whose red and blue are equal and below its green lies on the
      green axis: hue 120. */
  lemma GreenAxis(gp: real, rp: real)
    requires 0.0 <= rp < gp <= 1.0
    ensures HsbOfUnit(rp, gp, rp) == Hsb(120.0, (gp - rp) / gp, gp)
  {
    var ch := Max3(rp, gp, rp) - Min3(rp, gp, rp);
    assert ch == gp - rp;
    assert (rp - rp) / ch == 0.0;
    assert HueFromGreen(rp, gp, rp, ch) == 120.0;
    FloatModOfInRange(HueFromGreen(rp, gp, rp, ch), 360.0);
  }

  /** A colour whose red and green are equal and below its blue lies on the
      blue axis: hue 240. */
  lemma BlueAxis(bp: real, rp: real)
    requires 0.0 <= rp < bp <= 1.0
    ensures HsbOfUnit(rp, rp, bp) == Hsb(240.0, (bp - rp) / bp, bp)
  {
    var ch := Max3(rp, rp, bp) - Min3(rp, rp, bp);
    assert ch == bp - rp;
    assert (rp - rp) / ch == 0.0;
    assert HueFromBlue(rp, rp, bp, ch) == 240.0;
    FloatModOfInRange(HueFromBlue(rp, rp, bp, ch), 360.0);
  }

  /** Pure red: hue 0 at full saturation and brightness. */
  lemma RedToHsb()
    ensures RgbToHsb(255, 0, 0) == Hsb(0.0, 1.0, 1.0)
  {
    RedAxis(255 as real / 255.0, 0 as real / 255.0);
  }

  /** Pure green: hue 120 at full saturation and brightness. */
  lemma GreenToHsb()
    ensures RgbToHsb(0, 255, 0) == Hsb(120.0, 1.0, 1.0)
  {
    GreenAxis(255 as real / 255.0, 0 as real / 255.0);
  }

  /** Pure blue: hue 240 at full saturation and brightness. */
  lemma BlueToHsb()
    ensures RgbToHsb(0, 0, 255) == Hsb(240.0, 1.0, 1.0)
  {
    BlueAxis(255 as real / 255.0, 0 as real / 255.0);
  }

  /** Black and white: no saturation, hue 0, brightness 0 and 1. */
  lemma GreysToHsb()
    ensures RgbToHsb(0, 0, 0) == Hsb(0.0, 0.0, 0.0)
    ensures RgbToHsb(255, 255, 255) == Hsb(0.0, 0.0, 1.0)
  {
    FloatModOfInRange(0.0, 360.0);
  }

  /** Hues 0, 120 and 240 at full saturation and brightness give back pure
      red, green and blue. */
  lemma PrimariesToRgb()
    ensures HsbToRgb(0.0, 1.0, 1.0) == Rgb(255, 0, 0)
    ensures HsbToRgb(120.0, 1.0, 1.0) == Rgb(0, 255, 0)
    ensures HsbToRgb(240.0, 1.0, 1.0) == Rgb(0, 0, 255)
  {
    RoundTrip(255, 0, 0);
    RoundTrip(0, 255, 0);
    RoundTrip(0, 0, 255);
    RedToHsb();
    GreenToHsb();
    BlueToHsb();
  }
}
