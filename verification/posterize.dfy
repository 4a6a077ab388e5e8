/** Posterisation of 8-bit RGBA pixels into 32-bit hash keys (pam.c, pam_computeacolorhash).

    A pixel is read as one 32-bit word through a union; every byte of that word
    is then masked so that only its top `8 - ignorebits` bits survive. The
    masked word is the key under which the colour is counted.
 */
module Posterize {

  /** One pixel of the source image, four 8-bit channels. */
  datatype Rgba = Rgba(r: bv8, g: bv8, b: bv8, a: bv8)

  /** The number of low bits cleared in each channel: `ignorebits`, but never
      more than the width of a channel (`255 >> 8` and beyond is already 0). */
  function Cleared(ignorebits: nat): (e: bv8)
    ensures e <= 8
  {
    match ignorebits
    case 0 => 0
    case 1 => 1
    case 2 => 2
    case 3 => 3
    case 4 => 4
    case 5 => 5
    case 6 => 6
    case 7 => 7
    case _ => 8
  }

  /** More ignored bits never clear fewer bits. */
  lemma ClearedMonotone(i: nat, j: nat)
    requires i <= j
    ensures Cleared(i) <= Cleared(j)
  {
  }

  /** `255 >> ignorebits << ignorebits`: the channel mask. Its top `8 - e`
      bits are set and its `e` low bits are clear, where `e = Cleared(ignorebits)`. */
  function ChannelMask(ignorebits: nat): (m: bv8)
    ensures m >> Cleared(ignorebits) == 0xFF >> Cleared(ignorebits)
    ensures m << (8 - Cleared(ignorebits)) == 0
  {
    var e := Cleared(ignorebits);
    (0xFF as bv8 >> e) << e
  }

  /** The same mask repeated in all four bytes of the word. */
  function PosterizeMask(ignorebits: nat): (w: bv32)
  {
    var m := ChannelMask(ignorebits) as bv32;
    (m << 24) | (m << 16) | (m << 8) | m
  }

  /** The word mask holds the channel mask in each of its four bytes, so it
      clears the same low bits of every channel. */
  lemma PosterizeMaskBytes(ignorebits: nat)
    ensures PosterizeMask(ignorebits) & 0xFF == ChannelMask(ignorebits) as bv32
    ensures (PosterizeMask(ignorebits) >> 8) & 0xFF == ChannelMask(ignorebits) as bv32
    ensures (PosterizeMask(ignorebits) >> 16) & 0xFF == ChannelMask(ignorebits) as bv32
    ensures PosterizeMask(ignorebits) >> 24 == ChannelMask(ignorebits) as bv32
  {
  }

  /** The 32-bit word a pixel occupies in `union rgb_as_long`, with the first
      channel in the least significant byte (little-endian layout). */
  function Pack(p: Rgba): bv32
  {
    (p.a as bv32 << 24) | (p.b as bv32 << 16) | (p.g as bv32 << 8) | (p.r as bv32)
  }

  /** The pixel stored in a 32-bit word (the `.rgb` view of the union). */
  function Unpack(w: bv32): Rgba
  {
    Rgba((w & 0xFF) as bv8, ((w >> 8) & 0xFF) as bv8, ((w >> 16) & 0xFF) as bv8, (w >> 24) as bv8)
  }

  /** Packing is a bijection between pixels and words. */
  lemma PackUnpack(p: Rgba, w: bv32)
    ensures Unpack(Pack(p)) == p
    ensures Pack(Unpack(w)) == w
  {
  }

  /** The pixel with every channel masked. */
  function MaskPixel(p: Rgba, ignorebits: nat): Rgba
  {
    Rgba(p.r & ChannelMask(ignorebits), p.g & ChannelMask(ignorebits),
         p.b & ChannelMask(ignorebits), p.a & ChannelMask(ignorebits))
  }

  /** `px.l &= posterize_mask`, applied to a word. */
  function PosterizeWord(w: bv32, ignorebits: nat): bv32
  {
    w & PosterizeMask(ignorebits)
  }

  /** The hash key of a pixel: its packed word, posterised. */
  function Key(p: Rgba, ignorebits: nat): bv32
  {
    PosterizeWord(Pack(p), ignorebits)
  }

  /** The colour a key stands for, read back through the union, is the pixel
      with every channel masked. */
  lemma KeyColor(p: Rgba, ignorebits: nat)
    ensures Unpack(Key(p, ignorebits)) == MaskPixel(p, ignorebits)
  {
    KeyIsMaskedPixel(p, ignorebits);
    PackUnpack(MaskPixel(p, ignorebits), Key(p, ignorebits));
  }

  /** Masking the whole word masks every byte of it alike: the key of a pixel
      is the packed word of the channel-wise masked pixel. */
  lemma KeyIsMaskedPixel(p: Rgba, ignorebits: nat)
    ensures Key(p, ignorebits) == Pack(MaskPixel(p, ignorebits))
  {
  }

  /** Two channel values agree after masking exactly when their top bits agree. */
  lemma ChannelsAgree(v: bv8, u: bv8, ignorebits: nat)
    ensures (v & ChannelMask(ignorebits) == u & ChannelMask(ignorebits))
        <==> v >> Cleared(ignorebits) == u >> Cleared(ignorebits)
  {
    MaskedAgreeAt(v, u, Cleared(ignorebits), ChannelMask(ignorebits));
  }

  /** `ChannelsAgree` for one explicit shift amount and its mask. */
  lemma MaskedAgreeAt(v: bv8, u: bv8, e: bv8, m: bv8)
    requires e <= 8
    requires m == (0xFF as bv8 >> e) << e
    ensures (v & m == u & m) <==> v >> e == u >> e
  {
  }

  /** Two pixels land on the same key exactly when their masked pixels are
      equal: packing is injective. Together with `ChannelsAgree` this says the
      key keeps precisely the top bits of every channel. */
  lemma SameKeyIff(p: Rgba, q: Rgba, ignorebits: nat)
    ensures Key(p, ignorebits) == Key(q, ignorebits) <==> MaskPixel(p, ignorebits) == MaskPixel(q, ignorebits)
  {
    KeyIsMaskedPixel(p, ignorebits);
    KeyIsMaskedPixel(q, ignorebits);
    PackUnpack(MaskPixel(p, ignorebits), 0);
    PackUnpack(MaskPixel(q, ignorebits), 0);
  }

  /** Posterising is idempotent: a key is its own key. */
  lemma PosterizeIdempotent(w: bv32, ignorebits: nat)
    ensures PosterizeWord(PosterizeWord(w, ignorebits), ignorebits) == PosterizeWord(w, ignorebits)
  {
  }

  /** A coarser mask only clears more bits: `255 >> j << j` is contained in
      `255 >> i << i` when `i <= j`. */
  lemma CoarserChannelMask(i: nat, j: nat)
    requires i <= j
    ensures ChannelMask(j) & ChannelMask(i) == ChannelMask(j)
  {
    ClearedMonotone(i, j);
  }

  /** Posterising with `i` bits first and then with `j >= i` bits is the same as
      posterising with `j` bits at once. */
  lemma CoarserKey(p: Rgba, i: nat, j: nat)
    requires i <= j
    ensures PosterizeWord(Key(p, i), j) == Key(p, j)
  {
    CoarserChannelMask(i, j);
    var mi := ChannelMask(i) as bv32;
    var mj := ChannelMask(j) as bv32;
    assert mj & mi == mj;
  }

  /** The distinct keys of a sequence of pixels. */
  function Keys(pixels: seq<Rgba>, ignorebits: nat): set<bv32>
  {
    set p | p in pixels :: Key(p, ignorebits)
  }

  /** The image of a set under a function. */
  function Image<A, B>(s: set<A>, f: A -> B): set<B>
  {
    set x | x in s :: f(x)
  }

  /** The image of a finite set under a function is no larger than the set. */
  lemma {:induction false} ImageNoLarger<A, B>(s: set<A>, f: A -> B)
    ensures |Image(s, f)| <= |s|
    decreases |s|
  {
    if s != {} {
      var y :| y in s;
      var rest := s - {y};
      ImageNoLarger(rest, f);
      assert Image(s, f) == Image(rest, f) + {f(y)};
    }
  }

  /** Every key under the coarser mask is the coarser posterisation of a key
      under the finer one. */
  lemma CoarserKeyFromFiner(pixels: seq<Rgba>, i: nat, j: nat, k: bv32)
    requires i <= j
    requires k in Keys(pixels, j)
    ensures exists k' :: k' in Keys(pixels, i) && PosterizeWord(k', j) == k
  {
    var p :| p in pixels && Key(p, j) == k;
    CoarserKey(p, i, j);
    assert Key(p, i) in Keys(pixels, i);
  }

  lemma SubsetNoLarger<A>(s: set<A>, t: set<A>)
    requires s <= t
    ensures |s| <= |t|
  {
    assert t == s + (t - s);
  }

  /** Posterisation monotonicity: more ignored bits never yields more distinct
      keys for the same pixels. */
  lemma {:induction false} CoarserHasFewerKeys(pixels: seq<Rgba>, i: nat, j: nat)
    requires i <= j
    ensures |Keys(pixels, j)| <= |Keys(pixels, i)|
  {
    var f := (k: bv32) => PosterizeWord(k, j);
    var image := Image(Keys(pixels, i), f);
    forall k | k in Keys(pixels, j)
      ensures k in image
    {
      CoarserKeyFromFiner(pixels, i, j, k);
    }
    ImageNoLarger(Keys(pixels, i), f);
    SubsetNoLarger(Keys(pixels, j), image);
  }
}
