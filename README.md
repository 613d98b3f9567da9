# RGB / HSB colour conversions

This project models the colour-model core of the image-processing toolkit:
`rgb_to_hsb` and `hsb_to_rgb` in `IOImages/ColorMode.py`. They convert
between 8-bit RGB channels and hue / saturation / brightness (the hexcone
HSV model), with the hue in degrees. The model uses exact reals.

- `PyNumeric.dfy` holds the Python built-ins the two functions rely on:
  - the float remainder `x % m` for a positive divisor;
  - `round` (round half to even);
  - `max` and `min` of three values;
  - the clamp `max(0, min(x, 1))`;
  - `abs`.
- `ColorMode.dfy` holds the two conversions.
  - `RgbToHsb` divides the channels by 255. `HsbOfUnit` then takes the
    largest channel as the brightness and the chroma over the brightness
    as the saturation (0 for black).
  - The hue comes from the first of red, green and blue that attains the
    maximum. It is 0 for a grey, and it is reduced modulo 360.
  - `HsbToRgb` reduces the hue modulo 360 and clamps saturation and
    brightness into [0, 1] (`UnitOfHsb`). `UnitOfReduced` and `Assemble`
    then pick chroma, X and 0 per sextant of the hue and add the offset
    `m`. Finally each channel is scaled by 255 and rounded.
- `ColorModeLemmas.dfy` holds the properties:
  - the exact round trip `hsb_to_rgb(*rgb_to_hsb(r, g, b)) == (r, g, b)`;
  - the hue wrap-around and the clamping of out-of-range inputs;
  - the grey case;
  - the sextant choice and the red/green/blue tie-break;
  - the reverse round trip: HSB → channels → HSB gives the reduced hue
    and the clamped saturation and brightness back whenever saturation and
    brightness are positive;
  - the values for the primaries, black and white.

## Model

| member | source | states |
|---|---|---|
| PyNumeric.FloatMod | IOImages/ColorMode.py:27 | Python's `x % m` for m > 0: the result lies in [0, m) and differs from x by a whole multiple of m |
| PyNumeric.FloatModUnique | IOImages/ColorMode.py:33 | any r in [0, m) that differs from x by a whole multiple of m is `x % m` |
| PyNumeric.FloatModOfInRange | IOImages/ColorMode.py:33 | a hue already in [0, 360) is unchanged by `% 360` |
| PyNumeric.FloatModOfNegative | IOImages/ColorMode.py:27 | a value in [-m, 0) wraps round to x + m (a negative red-case ratio lands in the last sextant) |
| PyNumeric.FloatModShift | IOImages/ColorMode.py:40 | adding k·m to x does not change `x % m` |
| PyNumeric.Round | IOImages/ColorMode.py:66 | `round` returns an integer within 1/2 of x, and the even one on a tie |
| PyNumeric.RoundUnique | IOImages/ColorMode.py:66 | the two properties of `round` leave no choice |
| PyNumeric.RoundOfInt | IOImages/ColorMode.py:66 | a whole number rounds to itself |
| PyNumeric.Max3 | IOImages/ColorMode.py:12 | `max` of three is one of them and not below any |
| PyNumeric.Min3 | IOImages/ColorMode.py:13 | `min` of three is one of them and not above any |
| PyNumeric.Clamp01 | IOImages/ColorMode.py:41-42 | `max(0, min(x, 1))` lies in [0, 1], is x on [0, 1], 0 below it and 1 above it |
| PyNumeric.Abs | IOImages/ColorMode.py:46 | `abs` is non-negative and is x or -x |
| ColorMode.HueFromRed | IOImages/ColorMode.py:27 | the red formula gives a hue in [0, 360), and within 60 degrees of red (≤ 60 or ≥ 300) whenever \|g − b\| ≤ chroma |
| ColorMode.HueFromGreen | IOImages/ColorMode.py:29 | the green formula gives a hue in [60, 180] whenever \|b − r\| ≤ chroma |
| ColorMode.HueFromBlue | IOImages/ColorMode.py:31 | the blue formula gives a hue in [180, 300] whenever \|r − g\| ≤ chroma |
| ColorMode.HsbOfUnit | IOImages/ColorMode.py:12-35 | on channels in [0, 1]: hue in [0, 360); saturation and brightness in [0, 1]; brightness is the largest channel; saturation is 0 exactly for greys, and greys get hue 0. That some branch of the hue choice always applies is shown by the `assert false` in the body's impossible branch, not by an ensures clause |
| ColorMode.SaturationFacts | IOImages/ColorMode.py:18-21 | saturation lies in [0, 1], is 0 exactly when max == min, and max·(1 − saturation) == min |
| ColorMode.RgbToHsb | IOImages/ColorMode.py:7-35 | for channels in [0, 255]: hue in [0, 360); saturation and brightness in [0, 1]; 255·brightness is the largest channel; saturation is 0 exactly when r == g == b; brightness is 0 exactly for black; greys get hue 0 |
| ColorMode.SextantPick | IOImages/ColorMode.py:49-60 | the sextant choice gives three channels in [0, chroma], one of them the chroma and one of them 0 |
| ColorMode.SecondaryFactor | IOImages/ColorMode.py:46 | the factor 1 − \|hp % 2 − 1\| lies in [0, 1] |
| ColorMode.Assemble | IOImages/ColorMode.py:46-64 | for hp in [0, 6) and 0 ≤ chroma ≤ v ≤ 1, the channels before scaling by 255 lie in [0, 1] |
| ColorMode.AddOffset | IOImages/ColorMode.py:62-64 | adding m to every channel raises the largest and the smallest channel by m, so the chroma is unchanged |
| ColorMode.UnitOfReduced | IOImages/ColorMode.py:44-64 | for a reduced hue and clamped inputs the channels, before scaling by 255, lie in [0, 1] |
| ColorMode.UnitOfHsb | IOImages/ColorMode.py:40-64 | for any hue, saturation and brightness the channels, before scaling by 255, lie in [0, 1] |
| ColorMode.HsbToRgb | IOImages/ColorMode.py:38-66 | `hsb_to_rgb` is total, and every channel it returns is an integer in [0, 255] |
| ColorModeLemmas.SecondaryFactorIn | IOImages/ColorMode.py:46 | in sextant k the factor is hp − k (k even, rising) or k + 1 − hp (k odd, falling) |
| ColorModeLemmas.RedRising | IOImages/ColorMode.py:26-27 | red largest, green ≥ blue: the red-case hue lies in [0, 360) and `hsb_to_rgb`'s core rebuilds the channels |
| ColorModeLemmas.RedFalling | IOImages/ColorMode.py:26-27 | red largest, blue above green: the negative ratio wraps through `% 6` into sextant 5 and the channels are rebuilt |
| ColorModeLemmas.GreenRising | IOImages/ColorMode.py:28-29 | green largest, blue ≥ red: the hue lies in sextant 2 and the channels are rebuilt |
| ColorModeLemmas.GreenFalling | IOImages/ColorMode.py:28-29 | green largest, red above blue: the hue lies in sextant 1 and the channels are rebuilt |
| ColorModeLemmas.BlueRising | IOImages/ColorMode.py:30-31 | blue largest, red ≥ green: the hue lies in sextant 4 and the channels are rebuilt |
| ColorModeLemmas.BlueFalling | IOImages/ColorMode.py:30-31 | blue largest, green above red: the hue lies in sextant 3 and the channels are rebuilt |
| ColorModeLemmas.RedGreenTie | IOImages/ColorMode.py:26-29 | when red and green tie at the maximum, the red and green formulas agree (hue 60), so the red-first tie-break does not change the result |
| ColorModeLemmas.GreenBlueTie | IOImages/ColorMode.py:28-31 | when green and blue tie at the maximum, the green and blue formulas agree (hue 180) |
| ColorModeLemmas.RedBlueTie | IOImages/ColorMode.py:26-31 | when red and blue tie at the maximum, the red and blue formulas agree (hue 300) |
| ColorModeLemmas.RedMaxRoundTrip | IOImages/ColorMode.py:26-27 | whenever red is a largest channel, the red-case hue with saturation C/max and brightness max rebuilds the channels |
| ColorModeLemmas.GreenMaxRoundTrip | IOImages/ColorMode.py:28-29 | the same when green is strictly above red and is a largest channel |
| ColorModeLemmas.BlueMaxRoundTrip | IOImages/ColorMode.py:30-31 | the same when blue is strictly the largest |
| ColorModeLemmas.GreyReduced | IOImages/ColorMode.py:44-64 | with saturation 0 every hue gives the grey (v, v, v) |
| ColorModeLemmas.UnitRoundTrip | IOImages/ColorMode.py:8-64 | on channels in [0, 1], converting to HSB and back gives the same channels exactly |
| ColorModeLemmas.RoundTrip | IOImages/ColorMode.py:7-66 | for every (r, g, b) in [0, 255]³, `hsb_to_rgb(*rgb_to_hsb(r, g, b)) == (r, g, b)` |
| ColorModeLemmas.UnitHueWrap | IOImages/ColorMode.py:40 | adding whole turns to the hue leaves the unscaled channels unchanged |
| ColorModeLemmas.HueWrap | IOImages/ColorMode.py:40 | `hsb_to_rgb` depends on the hue only modulo 360 |
| ColorModeLemmas.UnitNormalizedInputs | IOImages/ColorMode.py:40-42 | the unscaled channels depend only on hue % 360 and the clamped saturation and brightness |
| ColorModeLemmas.NormalizedInputs | IOImages/ColorMode.py:40-42 | saturation and brightness outside [0, 1] act as their clamped values, and the hue as hue % 360 |
| ColorModeLemmas.UnitAchromatic | IOImages/ColorMode.py:41-64 | saturation ≤ 0 gives the grey whose channels all equal the clamped brightness, for every hue |
| ColorModeLemmas.Achromatic | IOImages/ColorMode.py:41-66 | saturation ≤ 0 gives r == g == b == round(255 · clamped brightness) |
| ColorModeLemmas.SextantExactlyOne | IOImages/ColorMode.py:49-60 | for hp in [0, 6) exactly one of the six sextant tests holds: the one for the whole part of hp |
| ColorModeLemmas.SmallestChannel | IOImages/ColorMode.py:12-21 | brightness · (1 − saturation) gives back the smallest channel |
| ColorModeLemmas.UnitExtremes | IOImages/ColorMode.py:40-64 | before scaling, `hsb_to_rgb`'s largest channel is the clamped brightness and its smallest is brightness · (1 − saturation) |
| ColorModeLemmas.AssembleExtremes | IOImages/ColorMode.py:46-64 | the offset lifts the chroma channel to v and the zero channel to v − chroma |
| ColorModeLemmas.SaturationBrightnessBack | IOImages/ColorMode.py:7-64 | HSB → channels → HSB gives the clamped brightness back, and the clamped saturation too whenever the brightness is not 0 |
| ColorModeLemmas.HsbRedMax | IOImages/ColorMode.py:23-27 | when red is a largest channel and the chroma is positive, `rgb_to_hsb`'s core takes the red formula, with saturation chroma/r and brightness r |
| ColorModeLemmas.HsbGreenMax | IOImages/ColorMode.py:23-29 | when green is above red and not below blue, the green formula is taken |
| ColorModeLemmas.HsbBlueMax | IOImages/ColorMode.py:23-31 | when blue is strictly above red and green, the blue formula is taken |
| ColorModeLemmas.ReadSextant0 | IOImages/ColorMode.py:12-33 | the channels (c, x, 0) + (v − c) with 0 ≤ x < c read back as hue 60·x/c, saturation c/v and brightness v |
| ColorModeLemmas.ReadSextant1 | IOImages/ColorMode.py:12-33 | (x, c, 0) + (v − c) with 0 < x ≤ c read back as hue 60·(2 − x/c); at x == c red wins the tie and gives the same hue, 60 |
| ColorModeLemmas.ReadSextant2 | IOImages/ColorMode.py:12-33 | (0, c, x) + (v − c) with 0 ≤ x < c read back as hue 60·(2 + x/c) |
| ColorModeLemmas.ReadSextant3 | IOImages/ColorMode.py:12-33 | (0, x, c) + (v − c) with 0 < x ≤ c read back as hue 60·(4 − x/c); at x == c green wins the tie with the same hue, 180 |
| ColorModeLemmas.ReadSextant4 | IOImages/ColorMode.py:12-33 | (x, 0, c) + (v − c) with 0 ≤ x < c read back as hue 60·(4 + x/c) |
| ColorModeLemmas.ReadSextant5 | IOImages/ColorMode.py:12-33 | (c, 0, x) + (v − c) with 0 < x ≤ c read back as hue 60·(6 − x/c): the negative red ratio wraps through `% 6` |
| ColorModeLemmas.BackSextant0 | IOImages/ColorMode.py:44-60 | a hue in sextant 0 with saturation and brightness in (0, 1] comes back unchanged from channels to HSB |
| ColorModeLemmas.BackSextant1 | IOImages/ColorMode.py:44-60 | the same for sextant 1 |
| ColorModeLemmas.BackSextant2 | IOImages/ColorMode.py:44-60 | the same for sextant 2 |
| ColorModeLemmas.BackSextant3 | IOImages/ColorMode.py:44-60 | the same for sextant 3 |
| ColorModeLemmas.BackSextant4 | IOImages/ColorMode.py:44-60 | the same for sextant 4 |
| ColorModeLemmas.BackSextant5 | IOImages/ColorMode.py:44-60 | the same for sextant 5 |
| ColorModeLemmas.UnitHsbRoundTrip | IOImages/ColorMode.py:7-64 | for a hue in [0, 360) and saturation and brightness in (0, 1], HSB → channels (before scaling) → HSB gives exactly (hue, saturation, brightness) |
| ColorModeLemmas.HsbBack | IOImages/ColorMode.py:7-64 | for any hue and any positive saturation and brightness, HSB → channels → HSB gives (hue % 360, clamped saturation, clamped brightness) |
| ColorModeLemmas.HsbOfExtremes | IOImages/ColorMode.py:12-21 | channels whose largest is v and smallest v·(1 − s) read as brightness v and, when v > 0, saturation s |
| ColorModeLemmas.RedAxis | IOImages/ColorMode.py:23-33 | a colour whose green equals its blue and is below its red has hue 0, saturation (r − g)/r and brightness r |
| ColorModeLemmas.GreenAxis | IOImages/ColorMode.py:23-33 | a colour whose red equals its blue and is below its green has hue 120 |
| ColorModeLemmas.BlueAxis | IOImages/ColorMode.py:23-33 | a colour whose red equals its green and is below its blue has hue 240 |
| ColorModeLemmas.RedToHsb | IOImages/ColorMode.py:7-35 | `rgb_to_hsb(255, 0, 0) == (0, 1, 1)` |
| ColorModeLemmas.GreenToHsb | IOImages/ColorMode.py:7-35 | `rgb_to_hsb(0, 255, 0) == (120, 1, 1)` |
| ColorModeLemmas.BlueToHsb | IOImages/ColorMode.py:7-35 | `rgb_to_hsb(0, 0, 255) == (240, 1, 1)` |
| ColorModeLemmas.GreysToHsb | IOImages/ColorMode.py:7-35 | black gives (0, 0, 0) and white gives (0, 0, 1) |
| ColorModeLemmas.PrimariesToRgb | IOImages/ColorMode.py:38-66 | `hsb_to_rgb` of (0, 1, 1), (120, 1, 1) and (240, 1, 1) gives pure red, green and blue |

## Left out

- Floating point: the model computes over exact reals, not IEEE-754 doubles. Three float-only effects are not captured:
  - A tiny negative hue can give `hue % 360 == 360.0`, which matches no sextant test.
  - That case, or a NaN or infinite hue (`inf % 360` is NaN), leaves `r, g, b` unbound at line 62. A NaN saturation or brightness does not: `max(0, nan)` returns 0 at lines 41-42.
  - Rounding error in the divisions by 255 and by the chroma. Under float arithmetic the round trip holds only up to that error before `round`.
- RgbToHsb: requires channels in [0, 255]. The source performs no check; its only caller passes the 8-bit slider values of `main` (IOImages/ColorMode.py:108-113). Outside that range the source still computes a value, and the model does not describe it.
- HsbToRgb: the `int(...)` around `round(...)` is the identity in Python 3 and is not modelled separately.
- The hue choice in `rgb_to_hsb` has no final `else`. The model proves that for real arithmetic one of the three tests always holds (an `assert false` in the impossible branch of `HsbOfUnit`). An unbound `Hue` is therefore only possible through NaN, which is not modelled.
- The reverse round trip is stated on the channels before the final scaling by 255 and `round` (`UnitHsbRoundTrip`, `HsbBack`). After rounding to whole channels the HSB values come back only approximately, and the model does not bound that error.
- SaturationBrightnessBack: covers every brightness, including 0, but states only saturation and brightness; the hue comes back by `HsbBack`, which needs saturation and brightness positive because a grey or black reads back with hue 0.
- `plot_rgb_histogram` and `main` in `IOImages/ColorMode.py`: plotting with matplotlib and the Streamlit page layout. These are user-interface I/O with no logic to verify.
- The other files (logger, device selection, Streamlit pages and the file generator) are not part of this model.
