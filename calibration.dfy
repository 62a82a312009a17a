/** The two radiometric conversions from raw sensor counts to temperatures,
    in idealised real arithmetic. A count is a real, which covers the
    floating-point extremes that `cv2.minMaxLoc` reports to
    `display_temperature`. */
module Calibration {

  /** `ktoc`: a count in hundredths of a kelvin, as degrees Celsius. */
  function KtoC(val: real): (c: real)
    ensures c * 100.0 + 27315.0 == val
  {
    (val - 27315.0) / 100.0
  }

  /** `ktof`: the same count as degrees Fahrenheit, via `ktoc`. */
  function KtoF(val: real): (f: real)
    ensures (f - 32.0) / 1.8 == KtoC(val)
  {
    1.8 * KtoC(val) + 32.0
  }

  /** `k_temp` in the sensor-specific formula, and its value over 100
      under Python 3's true division. */
  const KTemp: int := 30250
  const KTempCelsiusOffset: real := KTemp as real / 100.0 - 273.15

  /** `compc`: the sensor-specific linearisation used for the on-image
      markers. Its result, less the reading at the count 8192, is 0.0217
      degrees per count away from 8192. */
  function CompC(val: real): (c: real)
    ensures (c - KTempCelsiusOffset) / 0.0217 == val - 8192.0
  {
    0.0217 * (val - 8192.0) + KTemp as real / 100.0 - 273.15
  }

  /** The inverse of `KtoC`: degrees Celsius back to a centikelvin count. */
  function CtoK(c: real): (k: real)
    ensures (k - 27315.0) / 100.0 == c
  {
    c * 100.0 + 27315.0
  }

  /** Zero Celsius is the count 27315; the matching Fahrenheit is 32. */
  lemma FreezingPoint()
    ensures KtoC(27315.0) == 0.0
    ensures KtoF(27315.0) == 32.0
  {
  }

  /** `KtoC` and `CtoK` are inverse to each other on counts. */
  lemma KtoCRoundTrip(val: real)
    ensures CtoK(KtoC(val)) == val
  {
  }

  /** Fahrenheit is the Celsius reading scaled by 1.8 and shifted by 32, for
      every input, so it is affine in the count with slope 0.018. */
  lemma KtoFAffine(x: real, y: real)
    ensures KtoF(x) == 1.8 * KtoC(x) + 32.0
    ensures KtoF(x) - KtoF(y) == 0.018 * (x - y)
  {
  }

  /** `compc(8192)` is exactly `30250/100 - 273.15`. */
  lemma CompCAtReference()
    ensures CompC(8192.0) == 302.5 - 273.15
    ensures CompC(8192.0) == KTempCelsiusOffset
  {
  }

  /** `CompC` is affine with slope 0.0217, hence strictly increasing. */
  lemma CompCAffine(x: real, y: real)
    ensures CompC(x) - CompC(y) == 0.0217 * (x - y)
    ensures x < y ==> CompC(x) < CompC(y)
  {
  }

  /** The two paths are distinct formulas: they disagree at the reference
      count of either, so neither is derived from the other. */
  lemma PathsDiffer()
    ensures CompC(27315.0) != KtoC(27315.0)
    ensures CompC(8192.0) != KtoC(8192.0)
  {
  }
}
