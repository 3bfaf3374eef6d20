/** `xpfs_dds` of xpfs.cpp: converts a JPEG into a DXT1 .dds file on disk,
    writing the header and then each level as it is compressed. It counts
    levels with `> 8` and adds one; like convert.cpp it makes no power-of-two
    check, so the model asks for edges that halve evenly down to 8. */
module XpfsDds {
  import opened Arith
  import opened DdsLayout
  import opened PixelAverage
  import opened MipChain
  import opened Mipmaps
  import opened Conversion

  const Threshold: nat := 8
  const Counted := Above(Threshold)

  /** The .dds file afterwards: not created, or created with the header and
      the levels written one after the other. */
  datatype DdsFile = NoFile | File(header: Header, levels: seq<bv8>)
  {
    function Bytes(): (b: seq<bv8>)
      requires File?
      ensures |b| == HeaderSize + |levels|
    {
      HeaderBytes(header) + levels
    }
  }

  predicate Halvable(src: Decoded) {
    src.Image? ==> EvenChain(Threshold, src.width, src.height)
  }

  /** What `xpfs_dds` leaves on disk, given whether opening the destination
      for writing succeeds. Every failure on the source side returns before
      the destination is opened. */
  function XpfsDdsOf(compress: Compressor, src: Decoded, dstOpens: bool): (f: DdsFile)
    requires Valid(src) && Halvable(src)
    ensures f.File? <==> src.Image? && dstOpens
    ensures f.File? ==> f.header == ChainHeader(src.width, src.height, Levels(Counted, src.width, src.height) + 1,
                                                FourCCFormat(FourCCDxt1))
  {
    if !src.Image? || !dstOpens then NoFile
    else
      var w, h := src.width, src.height;
      File(ChainHeader(w, h, Levels(Counted, w, h) + 1, FourCCFormat(FourCCDxt1)),
           DxtChain(compress, Avg4, Threshold, src.pixels, w, h))
  }

  /** `xpfs_dds`: decode, count the levels, build the header, open the
      destination, write the header, then level 0 and each halved level. */
  method XpfsDds(compress: Compressor, src: Decoded, dstOpens: bool) returns (f: DdsFile)
    requires Valid(src) && Halvable(src)
    ensures f == XpfsDdsOf(compress, src, dstOpens)
  {
    if !src.Image? {
      // open, tjDecompressHeader3 or tjDecompress2 failed
      return NoFile;
    }
    var width, height := src.width, src.height;
    var mips := CountLoop(Counted, width, height);
    var header := ChainHeader(width, height, mips + 1, FourCCFormat(FourCCDxt1));
    if !dstOpens {
      return NoFile;
    }
    var levels := EmitDxt(compress, Avg4, Threshold, src.pixels, width, height, true);
    f := File(header, levels);
  }

  /** `dwMipMapCount` is the number of levels written, and with a compressor
      that emits w * h / 2 bytes per level the file holds the header and
      exactly those levels. */
  lemma {:induction false} XpfsDdsLevels(compress: Compressor, src: Decoded)
    requires Valid(src) && Halvable(src) && src.Image? && Exact(compress, Dxt1)
    ensures XpfsDdsOf(compress, src, true).header.mipMapCount == U32(Emitted(Threshold, src.width, src.height))
    ensures |XpfsDdsOf(compress, src, true).Bytes()| == HeaderSize + Written(Threshold, Dxt1, src.width, src.height)
  {
    EmittedAbove(Threshold, src.width, src.height);
    DxtChainBytes(compress, Avg4, Dxt1, Threshold, src.pixels, src.width, src.height);
  }
}
