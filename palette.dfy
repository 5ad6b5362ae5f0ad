/** The block palette and the nearest-colour search over it: every block
    texture is keyed by its average colour, and a pixel is drawn with the
    block whose key is nearest in L1 distance over R, G, B and A. */
module PaletteMatch {
  import opened Imaging

  /** Width and height every block texture is resized to when loaded. */
  const BlockSize: nat := 20

  /** `u8::abs_diff`: how far apart two channel values are; it fits in a
      u8 and is 0 only for equal values. */
  function AbsDiff(a: Byte, b: Byte): (d: nat)
    ensures d <= 255
    ensures d == 0 <==> a == b
    ensures a + d == b || b + d == a
  {
    if a < b then b - a else a - b
  }

  /** The key of `min_by_key`: the L1 distance between a palette key and
      the query pixel, summed over all four channels (at most 1020, so the
      u32 sum of the widened differences never wraps). */
  function Distance(key: Rgba, q: Rgba): (d: nat)
    ensures d <= 1020
    ensures d == 0 <==> key == q
  {
    AbsDiff(key.r, q.r) + AbsDiff(key.g, q.g) + AbsDiff(key.b, q.b) + AbsDiff(key.a, q.a)
  }

  /** A colour is at distance 0 exactly from itself. */
  lemma DistanceZero(key: Rgba, q: Rgba)
    ensures Distance(key, q) == 0 <==> key == q
  {
  }

  predicate Distinct(s: seq<Rgba>)
  {
    forall i, j | 0 <= i < j < |s| :: s[i] != s[j]
  }

  /** The block textures by key colour, and the list of keys in the order
      the map's key iterator produced them; that order decides ties. */
  datatype Palette = Palette(sample: seq<Rgba>, blocks: map<Rgba, Image>)
  {
    /** The sample lists each key of the map exactly once, and every
        block is BlockSize by BlockSize. */
    predicate Valid()
    {
      && Distinct(sample)
      && (forall k | k in blocks :: k in sample)
      && (forall i | 0 <= i < |sample| :: sample[i] in blocks)
      && (forall k | k in blocks :: blocks[k].HasSize(BlockSize, BlockSize))
    }
  }

  /** `min_by_key` over the sample: the index of a key at least as near as
      every other, and strictly nearer than every key before it, so ties
      go to the earliest key. Written as the left fold the iterator
      performs: a later key replaces the best so far only when it is
      strictly nearer. */
  function Nearest(sample: seq<Rgba>, q: Rgba): (i: nat)
    requires |sample| > 0
    ensures i < |sample|
    ensures forall j | 0 <= j < |sample| :: Distance(sample[i], q) <= Distance(sample[j], q)
    ensures forall j | 0 <= j < i :: Distance(sample[i], q) < Distance(sample[j], q)
    decreases |sample|
  {
    if |sample| == 1 then 0
    else
      var best := Nearest(sample[..|sample| - 1], q);
      if Distance(sample[|sample| - 1], q) < Distance(sample[best], q) then |sample| - 1 else best
  }

  /** The two properties of Nearest pin down one index: whatever index is
      a minimum and first among the minima is the one the fold returns. */
  lemma NearestIsUniqueFirstMinimum(sample: seq<Rgba>, q: Rgba, k: nat)
    requires k < |sample|
    requires forall j | 0 <= j < |sample| :: Distance(sample[k], q) <= Distance(sample[j], q)
    requires forall j | 0 <= j < k :: Distance(sample[k], q) < Distance(sample[j], q)
    ensures Nearest(sample, q) == k
  {
  }

  /** The colour whose block is pasted for `q`; None where the source's
      `unwrap` on an empty iterator panics. */
  function MatchColor(palette: Palette, q: Rgba): (m: Option<Rgba>)
    requires palette.Valid()
    ensures m.None? <==> |palette.sample| == 0
    ensures m.Some? ==> m.value in palette.blocks
    ensures m.Some? ==> forall k | k in palette.blocks :: Distance(m.value, q) <= Distance(k, q)
  {
    if |palette.sample| == 0 then None
    else Some(palette.sample[Nearest(palette.sample, q)])
  }

  /** A pixel whose colour is a palette key is matched to that very key,
      at distance 0: keys of the map are distinct, so no earlier key ties. */
  lemma {:induction false} ExactMatch(palette: Palette, q: Rgba)
    requires palette.Valid() && q in palette.blocks
    ensures MatchColor(palette, q) == Some(q)
    ensures Distance(MatchColor(palette, q).value, q) == 0
  {
    var s := palette.sample;
    assert q in s;
    var k :| 0 <= k < |s| && s[k] == q;
    var i := Nearest(s, q);
    assert Distance(s[k], q) == 0;
    DistanceZero(s[i], q);
  }

  /** With a single-entry palette every pixel is matched to that entry. */
  lemma SingleEntryMatch(palette: Palette, q: Rgba)
    requires palette.Valid() && |palette.sample| == 1
    ensures MatchColor(palette, q) == Some(palette.sample[0])
  {
  }
}
