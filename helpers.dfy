/** The band remapper that recolours the grey brick template: each template
    intensity `p` is moved to the target channel value `value`, keeping
    the template's shadows 100 below and its highlights 100 above it. */
module Helpers {
  import opened Imaging

  /** Lower end of the template's midtones; darker pixels are shadow. */
  const ShadowBelow: int := 33
  /** Upper end of the template's midtones; brighter pixels are highlight. */
  const HighlightAbove: int := 233
  /** The template intensity that is mapped exactly onto the target value. */
  const Neutral: int := 133

  /** Saturation into the 8-bit range: the nearest value of [0, 255]. */
  function Clamp(x: int): (r: int)
    ensures 0 <= r <= 255
    ensures 0 <= x <= 255 ==> r == x
    ensures x < 0 ==> r == 0
    ensures 255 < x ==> r == 255
  {
    if x < 0 then 0 else if x > 255 then 255 else x
  }

  /** The closure mapped over every template pixel: shadow, highlight or
      shifted midtone, then clamped and narrowed to u8. */
  function RemapValue(p: Byte, value: int): (r: Byte)
    ensures 0 <= r <= 255
  {
    var shifted :=
      if p < ShadowBelow then value - 100
      else if p > HighlightAbove then value + 100
      else value - Neutral + p;
    Clamp(shifted)
  }

  /** Brings `p` into the midtone range [33, 233]. */
  function Midtone(p: int): int
  {
    if p < ShadowBelow then ShadowBelow else if p > HighlightAbove then HighlightAbove else p
  }

  /** The three cases meet at their boundaries: the remap is one clamped
      shift by the template's midtone offset from 133. */
  lemma RemapIsClampedShift(p: Byte, value: int)
    ensures RemapValue(p, value) == Clamp(value + Midtone(p) - Neutral)
  {
  }

  /** The remap on each of its three cases. */
  lemma RemapCases(p: Byte, value: int)
    ensures p < ShadowBelow ==> RemapValue(p, value) == Clamp(value - 100)
    ensures p > HighlightAbove ==> RemapValue(p, value) == Clamp(value + 100)
    ensures ShadowBelow <= p <= HighlightAbove ==> RemapValue(p, value) == Clamp(value - Neutral + p)
  {
  }

  /** The neutral template grey reproduces the target channel exactly. */
  lemma RemapNeutral(value: Byte)
    ensures RemapValue(Neutral, value) == value
  {
  }

  /** A brighter target never gives a darker output pixel. */
  lemma RemapMonotoneInValue(p: Byte, v1: int, v2: int)
    requires v1 <= v2
    ensures RemapValue(p, v1) <= RemapValue(p, v2)
  {
  }

  /** A brighter template pixel never gives a darker output pixel, across
      all three cases. */
  lemma RemapMonotoneInTemplate(p1: Byte, p2: Byte, value: int)
    requires p1 <= p2
    ensures RemapValue(p1, value) <= RemapValue(p2, value)
  {
    RemapIsClampedShift(p1, value);
    RemapIsClampedShift(p2, value);
  }

  /** At the ends of the target range the output saturates: a black
      target leaves the template's darker half black, a white target its
      brighter half white. */
  lemma RemapAtExtremes(p: Byte)
    ensures p <= Neutral ==> RemapValue(p, 0) == 0
    ensures p > Neutral ==> RemapValue(p, 0) == Midtone(p) - Neutral
    ensures p >= Neutral ==> RemapValue(p, 255) == 255
    ensures p < Neutral ==> RemapValue(p, 255) == 255 - (Neutral - Midtone(p))
  {
  }

  /** Every output stays within 100 of the target, as far as the 8-bit
      range allows: the shadow and highlight outputs are the extremes. */
  lemma RemapWithinShadowAndHighlight(p: Byte, value: int)
    ensures Clamp(value - 100) <= RemapValue(p, value) <= Clamp(value + 100)
  {
    RemapMonotoneInTemplate(0, p, value);
    RemapMonotoneInTemplate(p, 255, value);
  }

  /** `colorize_lego_band`: the template band remapped pixel by pixel
      towards `value`; the output has the band's size, and each output
      pixel depends only on the template pixel at the same position. */
  function ColorizeBand(band: Band, value: int): (out: Band)
    requires band.Valid()
    ensures out.HasSize(band.width, band.height)
    ensures forall y, x | 0 <= y < band.height && 0 <= x < band.width ::
      out.rows[y][x] == RemapValue(band.rows[y][x], value)
  {
    Grid(band.width, band.height,
      seq(band.height, y requires 0 <= y < band.height =>
        seq(band.width, x requires 0 <= x < band.width => RemapValue(band.rows[y][x], value))))
  }

  /** Remapping a band towards a brighter target brightens it pixel by pixel. */
  lemma ColorizeBandMonotone(band: Band, v1: int, v2: int)
    requires band.Valid() && v1 <= v2
    ensures forall y, x | 0 <= y < band.height && 0 <= x < band.width ::
      ColorizeBand(band, v1).rows[y][x] <= ColorizeBand(band, v2).rows[y][x]
  {
    forall y, x | 0 <= y < band.height && 0 <= x < band.width
      ensures ColorizeBand(band, v1).rows[y][x] <= ColorizeBand(band, v2).rows[y][x]
    {
      RemapMonotoneInValue(band.rows[y][x], v1, v2);
    }
  }

  /** A template band that is neutral grey everywhere becomes a band of the
      target value. */
  lemma ColorizeNeutralBand(w: nat, h: nat, value: Byte)
    ensures ColorizeBand(Uniform(w, h, Neutral), value) == Uniform(w, h, value)
  {
    var out := ColorizeBand(Uniform(w, h, Neutral), value);
    var want := Uniform(w, h, value);
    forall y | 0 <= y < h
      ensures out.rows[y] == want.rows[y]
    {
      forall x | 0 <= x < w
        ensures out.rows[y][x] == want.rows[y][x]
      {
        RemapNeutral(value);
      }
    }
  }
}
