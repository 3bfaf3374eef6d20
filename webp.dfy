/** The libwebp converters of webp.cpp: `ddsfs_webp_rgb` and
    `ddsfs_webp_dxt1` (DXT5 for images with alpha, DXT1 otherwise). Both
    count levels with `> 8` and add one afterwards; the emission loops also
    run while both edges are above 8. */
module Webp {
  import opened Arith
  import opened DdsLayout
  import opened PixelAverage
  import opened MipChain
  import opened Mipmaps
  import opened Conversion

  /** The threshold of the size loops and of the emission loops. */
  const Threshold: nat := 8
  const Counted := Above(Threshold)

  /** The alpha mask of the RGB pixel format: 0xFF000000 when the WebP has
      alpha. */
  function AlphaMask(alpha: bool): bv32 {
    if alpha then 0xFF000000 else 0
  }

  /** What `ddsfs_webp_rgb` returns and writes. */
  function WebpRgbOf(src: Decoded): (r: Conversion)
    requires Valid(src)
    ensures r.Converted? <==> src.Image?
    ensures r.Converted? ==> r.alloc == r.len + 16
    ensures r.Converted? ==> r.header.pf == RgbFormat(if src.alpha then 0xFF000000 else 0)
  {
    if !src.Image? then Failed
    else
      var w, h := src.width, src.height;
      var pow2 := PowerOfTwoEdges(src);
      var mips := if pow2 then Levels(Counted, w, h) + 1 else 0;
      var len := HeaderSize + if pow2 then Budget(Counted, Rgba, w, h) else LevelBytes(Rgba, w, h);
      var header := if pow2 then WithMips(InitialHeader(w, h), mips) else InitialHeader(w, h);
      assert pow2 ==> EvenChain(Threshold, w, h) by {
        if pow2 { PowerOfTwoChain(Threshold, w, h); }
      }
      Converted(len, len + 16, header.(pf := RgbFormat(AlphaMask(src.alpha))),
                Serialize(LevelWords(Threshold, src.pixels, w, h, mips > 0)))
  }

  /** `ddsfs_webp_rgb`: as `ddsfs_jpg_rgb`, with threshold 8, one level added
      after the size loop, and the alpha mask set for images with alpha. */
  method WebpRgb(src: Decoded) returns (r: Conversion)
    requires Valid(src)
    ensures r == WebpRgbOf(src)
  {
    if !src.Image? {
      // open, WebPGetFeatures or WebPDecodeBGRAInto failed: -1 (and *dst = 0)
      return Failed;
    }
    var width, height := src.width, src.height;
    var header := InitialHeader(width, height);
    var mips: nat, totalsize: nat := 0, HeaderSize;
    if PowerOfTwo(width) && PowerOfTwo(height) {
      mips, totalsize := SizeLoop(Counted, Rgba, width, height);
      mips := mips + 1;
      header := WithMips(header, mips);
      PowerOfTwoChain(Threshold, width, height);
    } else {
      totalsize := totalsize + LevelBytes(Rgba, width, height);
    }
    header := header.(pf := RgbFormat(AlphaMask(src.alpha)));
    var words := DecodeAndHalve(Threshold, src.pixels, width, height, mips > 0);
    r := Converted(totalsize, totalsize + 16, header, Serialize(words));
  }

  /** The block encoding: DXT5 (one byte per pixel) with alpha, DXT1 (half a
      byte per pixel) without. */
  function EncodingOf(alpha: bool): Encoding {
    if alpha then Dxt5 else Dxt1
  }

  /** What `ddsfs_webp_dxt1` returns and writes, given CompressImageDXT1 and
      CompressImageDXT5. */
  function WebpDxtOf(dxt1: Compressor, dxt5: Compressor, src: Decoded): (r: Conversion)
    requires Valid(src)
    ensures r.Converted? <==> src.Image?
    ensures (src.Image? || src.BadImage?) && !PowerOfTwoEdges(src) ==> r == WebpRgbOf(src)
    ensures src.Image? && PowerOfTwoEdges(src) ==>
      && r.alloc == r.len
      && r.header.pf == FourCCFormat(if src.alpha then FourCCDxt5 else FourCCDxt1)
  {
    if src.Unopenable? || src.BadHeader? then Failed
    else if !PowerOfTwoEdges(src) then WebpRgbOf(src)
    else if src.BadImage? then Failed
    else
      var w, h := src.width, src.height;
      var mips := Levels(Counted, w, h) + 1;
      var len := HeaderSize + Budget(Counted, EncodingOf(src.alpha), w, h);
      var code := if src.alpha then FourCCDxt5 else FourCCDxt1;
      PowerOfTwoChain(Threshold, w, h);
      Converted(len, len, WithMips(InitialHeader(w, h), mips).(pf := FourCCFormat(code)),
                DxtChain(if src.alpha then dxt5 else dxt1, Avg4, Threshold, src.pixels, w, h))
  }

  /** `ddsfs_webp_dxt1`: power-of-two check after the features decode, size
      loop, one level added, header with FourCC DXT5 or DXT1, level 0
      compressed after the header, then each halved level after the previous
      one (the loop always runs, as the count is at least 1). */
  method WebpDxt(dxt1: Compressor, dxt5: Compressor, src: Decoded) returns (r: Conversion)
    requires Valid(src)
    ensures r == WebpDxtOf(dxt1, dxt5, src)
  {
    if src.Unopenable? || src.BadHeader? {
      return Failed;
    }
    var width, height := src.width, src.height;
    if !PowerOfTwo(width) || !PowerOfTwo(height) {
      r := WebpRgb(src);
      return;
    }
    if src.BadImage? {
      return Failed;
    }
    var header := InitialHeader(width, height);
    var mips, totalsize := SizeLoop(Counted, EncodingOf(src.alpha), width, height);
    mips := mips + 1;
    var code := if src.alpha then FourCCDxt5 else FourCCDxt1;
    header := WithMips(header, mips).(pf := FourCCFormat(code));
    PowerOfTwoChain(Threshold, width, height);
    var body := EmitDxt(if src.alpha then dxt5 else dxt1, Avg4, Threshold, src.pixels, width, height, mips > 0);
    r := Converted(totalsize, totalsize, header, body);
  }

  /** The edges of the last level the emission loops write. */
  function LastEdge(x: nat, w: nat, h: nat): nat {
    Shr(x, Levels(Counted, w, h))
  }

  /** For power-of-two edges `dwMipMapCount` is the number of levels the
      emission loop writes. */
  lemma {:induction false} WebpDxtLevels(dxt1: Compressor, dxt5: Compressor, src: Decoded)
    requires Valid(src) && src.Image? && PowerOfTwoEdges(src)
    ensures WebpDxtOf(dxt1, dxt5, src).header.mipMapCount == U32(Emitted(Threshold, src.width, src.height))
  {
    EmittedAbove(Threshold, src.width, src.height);
  }

  /** ... but `totalsize` budgets one level fewer than is written: the
      compressors write the last level past the end of the buffer. */
  lemma {:induction false} WebpDxtShortfall(dxt1: Compressor, dxt5: Compressor, src: Decoded)
    requires Valid(src) && src.Image? && PowerOfTwoEdges(src)
    requires Exact(dxt1, Dxt1) && Exact(dxt5, Dxt5)
    ensures var r, w, h := WebpDxtOf(dxt1, dxt5, src), src.width, src.height;
      |r.Bytes()| == r.len + LevelBytes(EncodingOf(src.alpha), LastEdge(w, w, h), LastEdge(h, w, h))
  {
    var w, h, e := src.width, src.height, EncodingOf(src.alpha);
    PowerOfTwoChain(Threshold, w, h);
    WrittenAbove(Threshold, e, w, h);
    DxtChainBytes(if src.alpha then dxt5 else dxt1, Avg4, e, Threshold, src.pixels, w, h);
  }

  /** A 256 x 256 WebP without alpha: six levels (256 down to 8) are
      announced and `totalsize` is 43776 ... */
  lemma {:induction false} WebpDxt256(dxt1: Compressor, dxt5: Compressor, src: Decoded)
    requires Valid(src) && src.Image? && src.width == 256 && src.height == 256 && !src.alpha
    ensures WebpDxtOf(dxt1, dxt5, src).header.mipMapCount == 6
    ensures WebpDxtOf(dxt1, dxt5, src).len == 43776
  {
    PowerOfTwo256();
    Above8Budget256();
  }

  /** ... and the 8 x 8 level's 32 bytes are written past it. */
  lemma {:induction false} WebpDxt256Overrun(dxt1: Compressor, dxt5: Compressor, src: Decoded)
    requires Valid(src) && src.Image? && src.width == 256 && src.height == 256 && !src.alpha
    requires Exact(dxt1, Dxt1) && Exact(dxt5, Dxt5)
    ensures |WebpDxtOf(dxt1, dxt5, src).Bytes()| == 43776 + 32
  {
    WebpDxt256(dxt1, dxt5, src);
    WebpDxtShortfall(dxt1, dxt5, src);
    LastLevel256();
  }

  /** The level past the budget of a 256 x 256 DXT1 chain is 8 x 8, 32 bytes. */
  lemma {:induction false} LastLevel256()
    ensures LevelBytes(EncodingOf(false), LastEdge(256, 256, 256), LastEdge(256, 256, 256)) == 32
  {
    Above8Budget256();
    Shr256By5();
    assert LastEdge(256, 256, 256) == 8;
    assert LevelBytes(Dxt1, 8, 8) == 32 by { AreaIsProduct(8, 8); }
  }

  lemma {:induction false} Shr256By5()
    ensures Shr(256, 5) == 8
  {
    assert Shr(256, 1) == 128;
    assert Shr(256, 2) == 64;
    assert Shr(256, 3) == 32;
    assert Shr(256, 4) == 16;
  }

  lemma {:induction false} Above8Budget256()
    ensures Levels(Counted, 256, 256) == 5 && Budget(Counted, Dxt1, 256, 256) == 43648
  {
    AreaIsProduct(256, 256);
    AreaIsProduct(128, 128);
    AreaIsProduct(64, 64);
    AreaIsProduct(32, 32);
    AreaIsProduct(16, 16);
    assert Levels(Counted, 8, 8) == 0 && Budget(Counted, Dxt1, 8, 8) == 0;
    assert Budget(Counted, Dxt1, 16, 16) == 128;
    assert Budget(Counted, Dxt1, 32, 32) == 640;
    assert Budget(Counted, Dxt1, 64, 64) == 2688;
    assert Budget(Counted, Dxt1, 128, 128) == 10880;
  }

  /** Power-of-two edges as RGB: one level more is written than `totalsize`
      budgets; the 16 spare bytes absorb it only when it has at most four
      pixels. */
  lemma {:induction false} WebpRgbShortfall(src: Decoded)
    requires Valid(src) && src.Image? && PowerOfTwoEdges(src)
    ensures var r, w, h := WebpRgbOf(src), src.width, src.height;
      && r.header.mipMapCount == U32(Emitted(Threshold, w, h))
      && |r.Bytes()| == r.len + LevelBytes(Rgba, LastEdge(w, w, h), LastEdge(h, w, h))
      && (r.Overruns() <==> LevelBytes(Rgba, LastEdge(w, w, h), LastEdge(h, w, h)) > 16)
  {
    var w, h := src.width, src.height;
    PowerOfTwoChain(Threshold, w, h);
    EmittedAbove(Threshold, w, h);
    WrittenAbove(Threshold, Rgba, w, h);
    ChainBytes(Threshold, w, h);
  }

  /** Edges that are not both powers of two: a single level of w * h * 4
      bytes with no mip-map flag or caps; the bytes written fill `totalsize`. */
  lemma {:induction false} WebpRgbFlat(src: Decoded)
    requires Valid(src) && src.Image? && !PowerOfTwoEdges(src)
    ensures WebpRgbOf(src).len == HeaderSize + 4 * (src.width * src.height) == |WebpRgbOf(src).Bytes()|
    ensures WebpRgbOf(src).header.mipMapCount == 0
    ensures WebpRgbOf(src).header.flags == DDSD_CAPS | DDSD_HEIGHT | DDSD_WIDTH | DDSD_PIXELFORMAT
    ensures WebpRgbOf(src).header.caps == DDSCAPS_TEXTURE
  {
    AreaIsProduct(src.width, src.height);
  }
}
