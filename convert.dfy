/** The older turbojpeg converters of convert.cpp: `xpfs_dds_dxt1` and
    `xpfs_dds_rgb`. They count levels with `>= 8`, emit levels while both
    edges are above 8, set the mip-map flag and caps unconditionally and make
    no power-of-two check. Halving a level of odd height reads past its last
    row, so the model asks for edges that halve evenly down to 8. */
module Convert {
  import opened Arith
  import opened DdsLayout
  import opened PixelAverage
  import opened MipChain
  import opened Mipmaps
  import opened Conversion

  const Threshold: nat := 8
  const Counted := AtLeast(Threshold)

  /** Every level the emission loop halves has an even height. */
  predicate Halvable(src: Decoded) {
    src.Image? ==> EvenChain(Threshold, src.width, src.height)
  }

  /** What `xpfs_dds_dxt1` returns and writes: the header and level 0 in the
      buffer of `totalsize` bytes; the buffer then grows by level 0's size and
      level 0 is copied again at the old `totalsize`, which becomes the
      returned length; the halved levels follow level 0 at the first offset. */
  function ConvertDxt1Of(compress: Compressor, src: Decoded): (r: Conversion)
    requires Valid(src) && Halvable(src)
    ensures r.Converted? <==> src.Image?
    ensures r.Converted? ==> r.alloc == r.len && r.header.pf == FourCCFormat(FourCCDxt1)
    ensures r.Converted? ==> r.header.mipMapCount == U32(Levels(Counted, src.width, src.height))
  {
    if !src.Image? then Failed
    else
      var w, h := src.width, src.height;
      var budget := Budget(Counted, Dxt1, w, h);
      var level0 := compress(src.pixels, w, h);
      var header := ChainHeader(w, h, Levels(Counted, w, h), FourCCFormat(FourCCDxt1));
      Converted(HeaderSize + budget + |level0|, HeaderSize + budget + |level0|, header,
                Put(Put(level0, budget, level0), |level0|, DxtTail(compress, Avg4, Threshold, src.pixels, w, h)))
  }

  /** `xpfs_dds_dxt1`, with `realloc` growing the buffer in place. */
  method ConvertDxt1(compress: Compressor, src: Decoded) returns (r: Conversion)
    requires Valid(src) && Halvable(src)
    ensures r == ConvertDxt1Of(compress, src)
  {
    if !src.Image? {
      // open, tjDecompressHeader3 or tjDecompress2 failed: -1
      return Failed;
    }
    var width, height := src.width, src.height;
    var mips, totalsize := SizeLoop(Counted, Dxt1, width, height);
    var header := ChainHeader(width, height, mips, FourCCFormat(FourCCDxt1));
    var level0 := compress(src.pixels, width, height);
    var body := level0;                               // at dstpos, right after the header
    body := Put(body, totalsize - HeaderSize, level0); // the copy at the old totalsize
    totalsize := totalsize + |level0|;
    var chain := EmitDxt(compress, Avg4, Threshold, src.pixels, width, height, true);
    body := Put(body, |level0|, chain[|level0|..]);    // the halved levels, from dstpos on
    r := Converted(totalsize, totalsize, header, body);
  }

  /** Power-of-two edges of at least 8 and a compressor that emits w * h / 2
      bytes per level: the size loop counts exactly the levels written, they
      end where the copy of level 0 begins, and the copy ends at the returned
      length, the end of the grown buffer. */
  lemma {:induction false} ConvertDxt1Exact(compress: Compressor, src: Decoded)
    requires Valid(src) && src.Image? && PowerOfTwoEdges(src)
    requires src.width >= Threshold && src.height >= Threshold && Exact(compress, Dxt1)
    ensures Halvable(src)
    ensures var r, w, h := ConvertDxt1Of(compress, src), src.width, src.height;
      && r.header.mipMapCount == U32(Emitted(Threshold, w, h))
      && r.body == DxtChain(compress, Avg4, Threshold, src.pixels, w, h) + compress(src.pixels, w, h)
      && |r.Bytes()| == r.len == HeaderSize + Written(Threshold, Dxt1, w, h) + LevelBytes(Dxt1, w, h)
  {
    var w, h, px := src.width, src.height, src.pixels;
    PowerOfTwoChain(Threshold, w, h);
    AtLeastLevels(Threshold, w, h);
    AtLeastBudget(Threshold, Dxt1, w, h);
    DxtChainBytes(compress, Avg4, Dxt1, Threshold, px, w, h);
    var level0, tail := compress(px, w, h), DxtTail(compress, Avg4, Threshold, px, w, h);
    assert |level0| == LevelBytes(Dxt1, w, h);
    PutGap(level0, level0, tail, Budget(Counted, Dxt1, w, h));
  }

  /** An edge below 8: nothing is counted, so the first allocation is the
      bare header, yet level 0 is copied after it before the `realloc` grows
      the block. That first write runs past the block whenever level 0 is
      not empty; the returned length is the grown one. */
  lemma {:induction false} ConvertDxt1Small(compress: Compressor, src: Decoded)
    requires Valid(src) && src.Image? && (src.width < Threshold || src.height < Threshold)
    requires Exact(compress, Dxt1)
    ensures Halvable(src)
    ensures Levels(Counted, src.width, src.height) == 0 && Budget(Counted, Dxt1, src.width, src.height) == 0
    ensures |compress(src.pixels, src.width, src.height)| == src.width * src.height / 2
    ensures HeaderSize + |compress(src.pixels, src.width, src.height)| > HeaderSize + Budget(Counted, Dxt1, src.width, src.height)
        <==> src.width * src.height >= 2
    ensures ConvertDxt1Of(compress, src).len == HeaderSize + src.width * src.height / 2
  {
    AreaIsProduct(src.width, src.height);
    assert |compress(src.pixels, src.width, src.height)| == LevelBytes(Dxt1, src.width, src.height);
  }

  /** What `xpfs_dds_rgb` returns and writes: level 0 decoded after the
      header, then the in-place halving loop, in a buffer of `totalsize`
      bytes (no spare bytes). */
  function ConvertRgbOf(src: Decoded): (r: Conversion)
    requires Valid(src) && Halvable(src)
    ensures r.Converted? <==> src.Image?
    ensures r.Converted? ==> r.alloc == r.len && r.header.pf == RgbFormat(0)
    ensures r.Converted? ==> r.header.mipMapCount == U32(Levels(Counted, src.width, src.height))
  {
    if !src.Image? then Failed
    else
      var w, h := src.width, src.height;
      var len := HeaderSize + Budget(Counted, Rgba, w, h);
      Converted(len, len, ChainHeader(w, h, Levels(Counted, w, h), RgbFormat(0)),
                Serialize(LevelWords(Threshold, src.pixels, w, h, true)))
  }

  /** `xpfs_dds_rgb`. */
  method ConvertRgb(src: Decoded) returns (r: Conversion)
    requires Valid(src) && Halvable(src)
    ensures r == ConvertRgbOf(src)
  {
    if !src.Image? {
      // open, tjDecompressHeader3 or tjDecompress2 failed: -1 (and *dst = 0)
      return Failed;
    }
    var width, height := src.width, src.height;
    var mips, totalsize := SizeLoop(Counted, Rgba, width, height);
    var header := ChainHeader(width, height, mips, RgbFormat(0));
    var words := DecodeAndHalve(Threshold, src.pixels, width, height, true);
    r := Converted(totalsize, totalsize, header, Serialize(words));
  }

  /** Power-of-two edges of at least 8: the chain fills the buffer exactly. */
  lemma {:induction false} ConvertRgbExact(src: Decoded)
    requires Valid(src) && src.Image? && PowerOfTwoEdges(src)
    requires src.width >= Threshold && src.height >= Threshold
    ensures Halvable(src)
    ensures ConvertRgbOf(src).header.mipMapCount == U32(Emitted(Threshold, src.width, src.height))
    ensures |ConvertRgbOf(src).Bytes()| == ConvertRgbOf(src).len == ConvertRgbOf(src).alloc
  {
    var w, h := src.width, src.height;
    PowerOfTwoChain(Threshold, w, h);
    AtLeastLevels(Threshold, w, h);
    AtLeastBudget(Threshold, Rgba, w, h);
    ChainBytes(Threshold, w, h);
  }

  /** An edge below 8: nothing is counted, so the buffer holds the bare
      header, yet level 0 is decoded after it. */
  lemma {:induction false} ConvertRgbSmall(src: Decoded)
    requires Valid(src) && src.Image? && (src.width < Threshold || src.height < Threshold)
    ensures Halvable(src)
    ensures ConvertRgbOf(src).len == ConvertRgbOf(src).alloc == HeaderSize
    ensures |ConvertRgbOf(src).Bytes()| == HeaderSize + 4 * (src.width * src.height)
    ensures ConvertRgbOf(src).Overruns()
  {
    AreaIsProduct(src.width, src.height);
  }
}
