/** The turbojpeg converters of jpg.cpp: `ddsfs_jpg_rgb` (32-bit pixels, mip
    chain halved in place in the output buffer) and `ddsfs_jpg_dxt1` (DXT1
    blocks, falling back to RGB for edges that are not powers of two). Both
    count levels with `>= MINSIZE` and emit levels while both edges are
    above MINSIZE. */
module Jpg {
  import opened Arith
  import opened DdsLayout
  import opened PixelAverage
  import opened MipChain
  import opened Mipmaps
  import opened Splicing
  import opened Conversion

  /** The threshold of both size loops, `(x >> mips) >= MINSIZE`. */
  const Counted := AtLeast(MinSize)

  /** What `ddsfs_jpg_rgb` returns and writes. */
  function JpgRgbOf(src: Decoded): (r: Conversion)
    requires Valid(src)
    ensures r.Converted? <==> src.Image?
    ensures r.Converted? ==> r.alloc == r.len + 16 && r.header.pf == RgbFormat(0)
  {
    if !src.Image? then Failed
    else
      var w, h := src.width, src.height;
      var pow2 := PowerOfTwoEdges(src);
      var mips := if pow2 then Levels(Counted, w, h) else 0;
      var len := HeaderSize + if pow2 then Budget(Counted, Rgba, w, h) else LevelBytes(Rgba, w, h);
      var header := if pow2 then WithMips(InitialHeader(w, h), mips) else InitialHeader(w, h);
      assert pow2 ==> EvenChain(MinSize, w, h) by {
        if pow2 { PowerOfTwoChain(MinSize, w, h); }
      }
      Converted(len, len + 16, header.(pf := RgbFormat(0)), Serialize(LevelWords(MinSize, src.pixels, w, h, mips > 0)))
  }

  /** `ddsfs_jpg_rgb`: header, size loop (power-of-two edges only), level 0
      decoded straight into the output buffer, then each level halved right
      after the previous one when the size loop counted a level. */
  method JpgRgb(src: Decoded) returns (r: Conversion)
    requires Valid(src)
    ensures r == JpgRgbOf(src)
  {
    if !src.Image? {
      // open, tjDecompressHeader3 or tjDecompress2 failed: -1 (and *dst = 0)
      return Failed;
    }
    var width, height := src.width, src.height;
    var header := InitialHeader(width, height);
    var mips: nat, totalsize: nat := 0, HeaderSize;
    if PowerOfTwo(width) && PowerOfTwo(height) {
      mips, totalsize := SizeLoop(Counted, Rgba, width, height);
      header := WithMips(header, mips);
      PowerOfTwoChain(MinSize, width, height);
    } else {
      totalsize := totalsize + LevelBytes(Rgba, width, height);
    }
    header := header.(pf := RgbFormat(0));
    var words := DecodeAndHalve(MinSize, src.pixels, width, height, mips > 0);
    r := Converted(totalsize, totalsize + 16, header, Serialize(words));
  }

  /** What `ddsfs_jpg_dxt1` returns and writes: the RGB converter for edges
      that are not powers of two, else DXT1 levels budgeted at w * h / 2
      bytes each. */
  function JpgDxt1Of(compress: Compressor, src: Decoded): (r: Conversion)
    requires Valid(src)
    ensures r.Converted? <==> src.Image?
    ensures (src.Image? || src.BadImage?) && !PowerOfTwoEdges(src) ==> r == JpgRgbOf(src)
    ensures src.Image? && PowerOfTwoEdges(src) ==> r.alloc == r.len && r.header.pf == FourCCFormat(FourCCDxt1)
  {
    if src.Unopenable? || src.BadHeader? then Failed
    else if !PowerOfTwoEdges(src) then JpgRgbOf(src)
    else if src.BadImage? then Failed
    else
      var w, h := src.width, src.height;
      var mips := Levels(Counted, w, h);
      var len := HeaderSize + Budget(Counted, Dxt1, w, h);
      PowerOfTwoChain(MinSize, w, h);
      Converted(len, len, WithMips(InitialHeader(w, h), mips).(pf := FourCCFormat(FourCCDxt1)),
                if mips > 0 then DxtChain(compress, Avg4, MinSize, src.pixels, w, h) else compress(src.pixels, w, h))
  }

  /** `ddsfs_jpg_dxt1`: power-of-two check after the header decodes, size
      loop, header, level 0 compressed after the header, then, when the size
      loop counted a level, each halved level compressed after the previous
      one. */
  method JpgDxt1(compress: Compressor, src: Decoded) returns (r: Conversion)
    requires Valid(src)
    ensures r == JpgDxt1Of(compress, src)
  {
    if src.Unopenable? || src.BadHeader? {
      return Failed;
    }
    var width, height := src.width, src.height;
    if !PowerOfTwo(width) || !PowerOfTwo(height) {
      r := JpgRgb(src);
      return;
    }
    if src.BadImage? {
      return Failed;
    }
    var header := InitialHeader(width, height);
    var mips, totalsize := SizeLoop(Counted, Dxt1, width, height);
    header := WithMips(header, mips).(pf := FourCCFormat(FourCCDxt1));
    PowerOfTwoChain(MinSize, width, height);
    var body := EmitDxt(compress, Avg4, MinSize, src.pixels, width, height, mips > 0);
    r := Converted(totalsize, totalsize, header, body);
  }

  /** Power-of-two edges of at least MINSIZE and a compressor that emits
      w * h / 2 bytes per level: the size loop counts exactly the levels
      written, the end offset is `totalsize` (the warning never fires) and
      nothing is written past the buffer. */
  lemma {:induction false} JpgDxt1Exact(compress: Compressor, src: Decoded)
    requires Valid(src) && src.Image? && PowerOfTwoEdges(src)
    requires src.width >= MinSize && src.height >= MinSize && Exact(compress, Dxt1)
    ensures JpgDxt1Of(compress, src).Converted?
    ensures JpgDxt1Of(compress, src).header.mipMapCount == U32(Emitted(MinSize, src.width, src.height))
    ensures |JpgDxt1Of(compress, src).Bytes()| == JpgDxt1Of(compress, src).len == JpgDxt1Of(compress, src).alloc
  {
    var w, h := src.width, src.height;
    PowerOfTwoChain(MinSize, w, h);
    AtLeastLevels(MinSize, w, h);
    AtLeastBudget(MinSize, Dxt1, w, h);
    DxtChainBytes(compress, Avg4, Dxt1, MinSize, src.pixels, w, h);
  }

  /** A power-of-two image with an edge below MINSIZE: no level is counted
      and `totalsize` is the bare header, yet level 0 is still compressed
      after it, past the end of the buffer as soon as it is not empty. */
  lemma {:induction false} JpgDxt1Small(compress: Compressor, src: Decoded)
    requires Valid(src) && src.Image? && PowerOfTwoEdges(src)
    requires src.width < MinSize || src.height < MinSize
    requires Exact(compress, Dxt1)
    ensures JpgDxt1Of(compress, src).len == HeaderSize && JpgDxt1Of(compress, src).header.mipMapCount == 0
    ensures |JpgDxt1Of(compress, src).Bytes()| == HeaderSize + src.width * src.height / 2
    ensures JpgDxt1Of(compress, src).Overruns() <==> src.width * src.height >= 2
  {
    AreaIsProduct(src.width, src.height);
    assert |compress(src.pixels, src.width, src.height)| == LevelBytes(Dxt1, src.width, src.height);
  }

  /** The DXT1 header as it lands in the output: magic "DDS ", dwSize 124,
      the caps/height/width/pixel-format/mip-map-count flags, the
      texture/complex/mip-map caps even for a single level, and FourCC "DXT1". */
  lemma {:induction false} JpgDxt1Header(compress: Compressor, src: Decoded)
    requires Valid(src) && src.Image? && PowerOfTwoEdges(src)
    ensures var b := JpgDxt1Of(compress, src).Bytes();
      && ReadWord(b, 0) == 0x20534444 && ReadWord(b, 1) == 124
      && ReadWord(b, 2) == 0x1 | 0x2 | 0x4 | 0x1000 | 0x20000
      && ReadWord(b, 21) == 0x31545844
      && ReadWord(b, 27) == 0x1000 | 0x8 | 0x400000
  {
    HeaderAtFront(JpgDxt1Of(compress, src));
  }

  /** A 256 x 256 JPEG as DXT1: five levels (256 down to 16) in 43776 bytes. */
  lemma {:induction false} JpgDxt1Of256(compress: Compressor, src: Decoded)
    requires Valid(src) && src.Image? && src.width == 256 && src.height == 256
    ensures JpgDxt1Of(compress, src).header.mipMapCount == 5
    ensures JpgDxt1Of(compress, src).len == 43776
  {
    PowerOfTwo256();
    Dxt1Budget256();
  }

  lemma {:induction false} Dxt1Budget256()
    ensures Levels(Counted, 256, 256) == 5 && Budget(Counted, Dxt1, 256, 256) == 43648
  {
    AreaIsProduct(256, 256);
    AreaIsProduct(128, 128);
    AreaIsProduct(64, 64);
    AreaIsProduct(32, 32);
    AreaIsProduct(16, 16);
    assert Levels(Counted, 8, 8) == 0 && Budget(Counted, Dxt1, 8, 8) == 0;
    assert Budget(Counted, Dxt1, 16, 16) == 128;
    assert Budget(Counted, Dxt1, 32, 32) == 640;
    assert Budget(Counted, Dxt1, 64, 64) == 2688;
    assert Budget(Counted, Dxt1, 128, 128) == 10880;
  }

  /** Power-of-two edges of at least MINSIZE: the RGB chain ends exactly at
      `totalsize`, inside the buffer, with one counted level per level
      written. */
  lemma {:induction false} JpgRgbExact(src: Decoded)
    requires Valid(src) && src.Image? && PowerOfTwoEdges(src)
    requires src.width >= MinSize && src.height >= MinSize
    ensures JpgRgbOf(src).header.mipMapCount == U32(Emitted(MinSize, src.width, src.height))
    ensures |JpgRgbOf(src).Bytes()| == JpgRgbOf(src).len && !JpgRgbOf(src).Overruns()
  {
    var w, h := src.width, src.height;
    PowerOfTwoChain(MinSize, w, h);
    AtLeastLevels(MinSize, w, h);
    AtLeastBudget(MinSize, Rgba, w, h);
    ChainBytes(MinSize, w, h);
  }

  /** Edges that are not both powers of two: a single level of w * h * 4
      bytes, no mip-map flag or caps, and the bytes written fill `totalsize`
      exactly. */
  lemma {:induction false} JpgRgbFlat(src: Decoded)
    requires Valid(src) && src.Image? && !PowerOfTwoEdges(src)
    ensures JpgRgbOf(src).len == HeaderSize + 4 * (src.width * src.height) == |JpgRgbOf(src).Bytes()|
    ensures JpgRgbOf(src).header.mipMapCount == 0
    ensures JpgRgbOf(src).header.flags == DDSD_CAPS | DDSD_HEIGHT | DDSD_WIDTH | DDSD_PIXELFORMAT
    ensures JpgRgbOf(src).header.caps == DDSCAPS_TEXTURE
  {
    AreaIsProduct(src.width, src.height);
  }

  /** A 300 x 200 JPEG as RGB: 128 + 300 * 200 * 4 bytes. */
  lemma {:induction false} JpgRgbOf300x200(src: Decoded)
    requires Valid(src) && src.Image? && src.width == 300 && src.height == 200
    ensures JpgRgbOf(src).len == 240128
  {
    assert !PowerOfTwo(300) by { PowerOfTwoIff(300); assert !IsPow2(75); }
    JpgRgbFlat(src);
  }

  /** A power-of-two image with an edge below MINSIZE: `totalsize` is the bare
      header, but level 0 is still decoded after it; the 16 spare bytes
      absorb it only up to four pixels. */
  lemma {:induction false} JpgRgbSmall(src: Decoded)
    requires Valid(src) && src.Image? && PowerOfTwoEdges(src)
    requires src.width < MinSize || src.height < MinSize
    ensures JpgRgbOf(src).len == HeaderSize && JpgRgbOf(src).header.mipMapCount == 0
    ensures |JpgRgbOf(src).Bytes()| == HeaderSize + 4 * (src.width * src.height)
    ensures JpgRgbOf(src).Overruns() <==> src.width * src.height > 4
  {
    AreaIsProduct(src.width, src.height);
  }
}
