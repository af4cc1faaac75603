/** The floating-point conversion formulas between the models
    (`src/hsl/convert_rgb.rs`, `src/rgb/convert_hsl.rs`,
    `src/hsv/convert_hsl.rs`, `src/hsl/convert_hsv.rs`) are not modelled:
    every operation that converts takes them as a parameter, so what is
    proved holds for any formulas.  The HSV/RGB conversions are the source's
    routing through HSL (`src/hsv/convert_rgb.rs`, `src/rgb/convert_hsv.rs`). */
module Formulas {
  import Rgb
  import Hsl
  import Hsv

  datatype Formulas = Formulas(
    hslOfRgb: Rgb.RGB -> Hsl.HSL,
    rgbOfHsl: Hsl.HSL -> Rgb.RGB,
    hsvOfHsl: Hsl.HSL -> Hsv.HSV,
    hslOfHsv: Hsv.HSV -> Hsl.HSL)
  {
    /** `From<RGB> for HSV`: by way of HSL. */
    function HsvOfRgb(c: Rgb.RGB): Hsv.HSV
    {
      hsvOfHsl(hslOfRgb(c))
    }

    /** `From<HSV> for RGB`: by way of HSL. */
    function RgbOfHsv(v: Hsv.HSV): Rgb.RGB
    {
      rgbOfHsl(hslOfHsv(v))
    }
  }

  /** RGB -> HSL -> RGB is the identity. */
  ghost predicate HslRoundTrips(f: Formulas)
  {
    forall c: Rgb.RGB :: f.rgbOfHsl(f.hslOfRgb(c)) == c
  }

  /** RGB -> HSV -> RGB is the identity. */
  ghost predicate HsvRoundTrips(f: Formulas)
  {
    forall c: Rgb.RGB :: f.rgbOfHsl(f.hslOfHsv(f.hsvOfHsl(f.hslOfRgb(c)))) == c
  }

  /** Converting an HSL colour to HSV does not change the RGB it denotes. */
  ghost predicate HsvOfHslKeepsRgb(f: Formulas)
  {
    forall h: Hsl.HSL :: f.rgbOfHsl(f.hslOfHsv(f.hsvOfHsl(h))) == f.rgbOfHsl(h)
  }

  /** The round-trip property the library's tests aim at, in every
      direction the operators use. */
  ghost predicate Lossless(f: Formulas)
  {
    HslRoundTrips(f) && HsvRoundTrips(f) && HsvOfHslKeepsRgb(f)
  }
}
