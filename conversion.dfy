/** What the converters have in common: what the image decoders report, what
    a conversion returns, and the header fields that a mip chain adds.
    The decoders (turbojpeg, libwebp) are outside the model: a decoder result
    is a parameter of every converter. */
module Conversion {
  import opened Arith
  import opened DdsLayout
  import opened MipChain
  import opened PixelAverage
  import opened Mipmaps
  import opened Splicing

  /** What decoding a source file gives: the file cannot be opened, its
      header does not decode, the header decodes (dimensions and alpha flag)
      but the pixels do not, or the pixels as 32-bit words, row by row.
      The channel order of `pixels` is left abstract. The DXT converters
      decode as RGBA and their fallbacks decode the file again as BGRA; the
      model passes one `Decoded` to both. No property proved here depends on
      the order: `Avg4` works channel by channel and the compressors are
      parameters. */
  datatype Decoded =
    | Unopenable
    | BadHeader
    | BadImage(width: nat, height: nat, alpha: bool)
    | Image(width: nat, height: nat, alpha: bool, pixels: seq<bv32>)

  /** A decoded header has positive C `int` dimensions, and the decoder writes
      exactly width * height pixels. */
  predicate Valid(d: Decoded) {
    (d.BadImage? || d.Image? ==> 1 <= d.width < 0x8000_0000 && 1 <= d.height < 0x8000_0000)
    && (d.Image? ==> |d.pixels| == Area(d.width, d.height))
  }

  /** Both edges pass `poweroftwo`. */
  predicate PowerOfTwoEdges(d: Decoded)
    requires Valid(d) && (d.BadImage? || d.Image?)
  {
    PowerOfTwo(d.width) && PowerOfTwo(d.height)
  }

  /** The outcome of a converter: -1, or the returned length `len`, the bytes
      it allocated for `*dst` and what it wrote there, the header followed by
      `body`. `len` and `alloc` are what the C code computes; the model keeps
      them apart from the bytes actually written so that lemmas can compare
      them. */
  datatype Conversion =
    | Failed
    | Converted(len: nat, alloc: nat, header: Header, body: seq<bv8>)
  {
    /** Every byte written through `*dst`, from offset 0. */
    function Bytes(): (b: seq<bv8>)
      requires Converted?
      ensures |b| == HeaderSize + |body|
    {
      HeaderBytes(header) + body
    }

    /** Some write went past the allocated buffer. */
    predicate Overruns()
      requires Converted?
    {
      |Bytes()| > alloc
    }
  }

  /** The header fields set once the mip count is known:
        dwFlags |= DDSD_MIPMAPCOUNT; dwMipMapCount = mips;
        dwCaps |= DDSCAPS_COMPLEX | DDSCAPS_MIPMAP; */
  function WithMips(h: Header, mips: nat): (r: Header)
    ensures r.flags == h.flags | DDSD_MIPMAPCOUNT && r.mipMapCount == U32(mips)
    ensures r.caps == h.caps | DDSCAPS_COMPLEX | DDSCAPS_MIPMAP
    ensures r.pf == h.pf && r.width == h.width && r.height == h.height
    ensures r.magic == h.magic && r.size == h.size
  {
    h.(flags := h.flags | DDSD_MIPMAPCOUNT, mipMapCount := U32(mips),
       caps := h.caps | DDSCAPS_COMPLEX | DDSCAPS_MIPMAP)
  }

  /** The header of the older converters (convert.cpp, xpfs.cpp), which set
      the mip-map flag and caps from the start. */
  function ChainHeader(width: nat, height: nat, mipMapCount: nat, pf: PixelFormat): (h: Header)
    ensures h.magic == DdsMagic && h.size == 124
    ensures h.flags == DDSD_CAPS | DDSD_HEIGHT | DDSD_WIDTH | DDSD_PIXELFORMAT | DDSD_MIPMAPCOUNT
    ensures h.caps == DDSCAPS_TEXTURE | DDSCAPS_COMPLEX | DDSCAPS_MIPMAP
    ensures h.height == U32(height) && h.width == U32(width) && h.mipMapCount == U32(mipMapCount)
    ensures h.pf == pf
  {
    Header(DdsMagic, 124, DDSD_CAPS | DDSD_HEIGHT | DDSD_WIDTH | DDSD_PIXELFORMAT | DDSD_MIPMAPCOUNT,
           U32(height), U32(width), 0, 0, U32(mipMapCount), pf,
           DDSCAPS_TEXTURE | DDSCAPS_COMPLEX | DDSCAPS_MIPMAP, 0, 0, 0)
  }

  /** The same header however it is put together. */
  lemma {:induction false} ChainHeaderIsWithMips(width: nat, height: nat, mips: nat, pf: PixelFormat)
    ensures ChainHeader(width, height, mips, pf) == WithMips(InitialHeader(width, height), mips).(pf := pf)
  {
  }

  /** `buf` with x written at `at`; a write past the end extends the buffer,
      and bytes between the old end and `at`, which the C code leaves
      unspecified, are zero here. */
  function Put(buf: seq<bv8>, at: nat, x: seq<bv8>): (r: seq<bv8>)
    ensures |r| == if at + |x| <= |buf| then |buf| else at + |x|
    ensures r[at .. at + |x|] == x
    ensures at <= |buf| ==> r[..at] == buf[..at]
    ensures at >= |buf| ==> r[..|buf|] == buf
    ensures at + |x| <= |buf| ==> r[at + |x|..] == buf[at + |x|..]
  {
    var padded := if at + |x| <= |buf| then buf else buf + seq(at + |x| - |buf|, _ => 0);
    assert |padded| >= at + |x|;
    var r := padded[..at] + x + padded[at + |x|..];
    assert r[at .. at + |x|] == x;
    assert at >= |buf| ==> r[..|buf|] == padded[..|buf|] == buf;
    r
  }

  /** Writing y at `at`, past the end of x, then z from the end of x up to
      `at`, leaves x + z + y. */
  lemma {:induction false} PutGap(x: seq<bv8>, y: seq<bv8>, z: seq<bv8>, at: nat)
    requires at == |x| + |z|
    ensures Put(Put(x, at, y), |x|, z) == x + z + y
  {
    var p := Put(x, at, y);
    var r := Put(p, |x|, z);
    assert |p| == at + |y|;
    assert r[..|x|] == p[..|x|] == x;
    assert r[|x| .. at] == z;
    assert r[at..] == p[at..] == y;
    assert r == r[..|x|] + r[|x| .. at] + r[at..];
  }

  /** Words 0 to 31 of the bytes a conversion writes are the header words:
      the magic at byte 0, dwSize at 4, dwFlags at 8, dwMipMapCount at 28,
      dwFourCC at 84 and dwCaps at 108. */
  lemma {:induction false} HeaderAtFront(c: Conversion)
    requires c.Converted?
    ensures ReadWord(c.Bytes(), 0) == c.header.magic && ReadWord(c.Bytes(), 1) == c.header.size
    ensures ReadWord(c.Bytes(), 2) == c.header.flags && ReadWord(c.Bytes(), 7) == Word(c.header.mipMapCount)
    ensures ReadWord(c.Bytes(), 21) == c.header.pf.fourCC && ReadWord(c.Bytes(), 27) == c.header.caps
  {
    var hb := HeaderBytes(c.header);
    forall i: nat | i < HeaderWordCount ensures ReadWord(c.Bytes(), i) == Words(c.header)[i] {
      assert c.Bytes()[4 * i .. 4 * i + 4] == hb[4 * i .. 4 * i + 4];
      HeaderImage(c.header, i);
    }
    WordsLayout(c.header);
    FormatLayout(c.header);
  }

  /** Power-of-two edges of a decoded image halve evenly down to any
      threshold t >= 1. */
  lemma {:induction false} PowerOfTwoChain(t: nat, w: nat, h: nat)
    requires t >= 1 && 1 <= w < U32Limit && 1 <= h < U32Limit
    requires PowerOfTwo(w) && PowerOfTwo(h)
    ensures IsPow2(w) && IsPow2(h) && EvenChain(t, w, h)
  {
    PowerOfTwoIff(w);
    PowerOfTwoIff(h);
    Pow2EvenChain(t, w, h);
  }

  /** The 32-bit pixels an RGB converter leaves after the header: level 0,
      followed, when `more`, by the levels of the in-place halving loop. */
  function LevelWords(t: nat, px: seq<bv32>, w: nat, h: nat, more: bool): (ws: seq<bv32>)
    requires |px| == Area(w, h) && (more ==> EvenChain(t, w, h))
    ensures |ws| == if more then ChainWords(t, w, h) else Area(w, h)
    ensures Area(w, h) <= |ws| && ws[..Area(w, h)] == px
  {
    if more then RgbChain(Avg4, t, px, w, h) else px
  }

  /** Level 0 decoded straight into the output buffer, then, when `more`,
      the loop that halves each level into the words right after it:
        while (width > t && height > t) {
          halveimage(dstpos - bytes, width, height, dstpos);
          width >>= 1; height >>= 1; bytes = width * height * 4; dstpos += bytes; } */
  method DecodeAndHalve(t: nat, px: seq<bv32>, w: nat, h: nat, more: bool) returns (ws: seq<bv32>)
    requires |px| == Area(w, h) && (more ==> EvenChain(t, w, h))
    ensures ws == LevelWords(t, px, w, h, more)
  {
    var words := if more then ChainWords(t, w, h) else Area(w, h);
    var buf := new bv32[words](i => if 0 <= i < |px| then px[i] else 0);
    assert buf[..Area(w, h)] == px;
    if more {
      ghost var level0 := buf[..];
      var end := HalveInPlace(Avg4, buf, 0, t, w, h);
      SpliceWhole(level0, RgbChain(Avg4, t, px, w, h));
    } else {
      assert buf[..] == buf[..Area(w, h)];
    }
    ws := buf[..];
  }

  /** 256 passes `poweroftwo`. */
  lemma {:induction false} PowerOfTwo256()
    ensures PowerOfTwo(256)
  {
    PowerOfTwoIff(256);
    Pow2IsPow2(8);
    assert Pow2(8) == 256;
  }
}
