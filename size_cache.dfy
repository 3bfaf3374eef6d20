/** sizecache.cpp: `dds_size`, the closed-form estimate of a synthesized
    .dds file's size that getattr reports when asked to, and the size memo
    (`sizecache_get`, `sizecache_set`) that getattr, readdir and open share. */
module SizeCache {
  import opened Arith
  import opened DdsLayout
  import opened MipChain
  import opened Mipmaps
  import opened Conversion
  import Jpg

  /** C `/` by 2 on an `int`: the quotient is truncated toward zero. */
  function CHalf(p: int): (q: int)
    ensures p >= 0 ==> 0 <= p - 2 * q <= 1
    ensures p < 0 ==> 0 <= 2 * q - p <= 1
  {
    if p >= 0 then p / 2 else -((-p) / 2)
  }

  /** `pixels` of `dds_size`, the formula the authors hoped sums the mip chain:
      `((h << 1) - 1 - ((MINSIZE << 1) - 1)) * ((w << 1) - 1 - ((MINSIZE << 1) - 1))`. */
  function ChainPixels(width: nat, height: nat): (p: int)
    ensures p == 4 * ((height - MinSize) * (width - MinSize))
  {
    ((height * 2 - 1) - (MinSize * 2 - 1)) * ((width * 2 - 1) - (MinSize * 2 - 1))
  }

  /** `dds_size(width, height, alpha)` with `config.compress` as a parameter.
      Edges that are not both powers of two give the raw pixel bytes
      (without the 128-byte header); otherwise the header plus the formula
      scaled to DXT5 (one byte per pixel), DXT1 (half a byte) or RGBA (four). */
  function DdsSize(width: nat, height: nat, alpha: bool, compress: bool): (r: int)
    requires width < 0x8000_0000 && height < 0x8000_0000
    ensures !(PowerOfTwo(width) && PowerOfTwo(height)) ==> r == 4 * (width * height)
    ensures PowerOfTwo(width) && PowerOfTwo(height) ==>
      var p := 4 * ((height - MinSize) * (width - MinSize));
      r == HeaderSize + (if !compress then 4 * p else if alpha then p else CHalf(p))
  {
    if !PowerOfTwo(width) || !PowerOfTwo(height) then width * height * 4
    else
      var pixels := ChainPixels(width, height);
      if compress then
        if alpha then HeaderSize + pixels else HeaderSize + CHalf(pixels)
      else HeaderSize + pixels * 4
  }

  /** Every estimate is even, so none collides with the -1 that
      `sizecache_get` returns for a name never set. */
  lemma {:induction false} DdsSizeEven(width: nat, height: nat, alpha: bool, compress: bool)
    requires width < 0x8000_0000 && height < 0x8000_0000
    ensures DdsSize(width, height, alpha, compress) % 2 == 0
    ensures DdsSize(width, height, alpha, compress) != -1
  {
    if PowerOfTwo(width) && PowerOfTwo(height) {
      ChainEstimateEven((height - MinSize) * (width - MinSize), alpha, compress);
    } else {
      FourTimesEven(width * height);
    }
  }

  /** The power-of-two estimate is even whatever the (possibly negative)
      pixel count `q` the formula starts from. */
  lemma {:induction false} ChainEstimateEven(q: int, alpha: bool, compress: bool)
    ensures (HeaderSize + (if !compress then 4 * (4 * q) else if alpha then 4 * q else CHalf(4 * q))) % 2 == 0
  {
    assert CHalf(4 * q) == 2 * q;
  }

  lemma {:induction false} FourTimesEven(m: int)
    ensures (4 * m) % 2 == 0
  {
    assert 4 * m == 2 * (2 * m);
  }

  /** The estimate goes negative when one edge is below MINSIZE and the other
      above it: 8 x 32 as DXT1 gives -128. */
  lemma {:induction false} DdsSizeNegative()
    ensures DdsSize(8, 32, false, true) == -128
  {
    PowerOfTwoIff(8);
    PowerOfTwoIff(32);
    assert IsPow2(32) by { assert IsPow2(8); }
    assert ChainPixels(8, 32) == -512;
  }

  /** The commented-out loop the formula replaced: the pixels of every level
      whose edges are both at least MINSIZE. */
  function LoopPixels(width: nat, height: nat): (p: nat)
    ensures width >= MinSize && height >= MinSize ==> p >= Area(width, height)
    ensures width < MinSize || height < MinSize ==> p == 0
  {
    Budget(AtLeast(MinSize), Dxt5, width, height)
  }

  /** The formula does not sum the chain: for a 256 x 256 image the loop
      counts 87296 pixels and the formula 230400; for a 16 x 16 image, 256
      against 0. */
  lemma {:induction false} FormulaIsNotTheLoop()
    ensures LoopPixels(256, 256) == 87296 && ChainPixels(256, 256) == 230400
    ensures LoopPixels(16, 16) == 256 && ChainPixels(16, 16) == 0
  {
    AreaIsProduct(256, 256);
    AreaIsProduct(128, 128);
    AreaIsProduct(64, 64);
    AreaIsProduct(32, 32);
    AreaIsProduct(16, 16);
    assert LoopPixels(8, 8) == 0;
    assert Budget(AtLeast(MinSize), Dxt5, 16, 16) == 256;
    assert Budget(AtLeast(MinSize), Dxt5, 32, 32) == 1280;
    assert Budget(AtLeast(MinSize), Dxt5, 64, 64) == 5376;
    assert Budget(AtLeast(MinSize), Dxt5, 128, 128) == 21760;
  }

  /** Edges that are not both powers of two: the estimate leaves out the
      128-byte header that `ddsfs_jpg_rgb` (and `ddsfs_jpg_dxt1`, which falls
      back to it) puts in front of the pixels. */
  lemma {:induction false} EstimateMissesHeader(compressor: Compressor, src: Decoded, alpha: bool, compress: bool)
    requires Valid(src) && src.Image? && !PowerOfTwoEdges(src)
    ensures DdsSize(src.width, src.height, alpha, compress) + HeaderSize == Jpg.JpgRgbOf(src).len
    ensures DdsSize(src.width, src.height, alpha, compress) + HeaderSize == Jpg.JpgDxt1Of(compressor, src).len
  {
    Jpg.JpgRgbFlat(src);
  }

  /** A 256 x 256 JPEG as DXT1: the estimate is 115328 bytes, the converter
      returns 43776. */
  lemma {:induction false} EstimateAt256(compressor: Compressor, src: Decoded)
    requires Valid(src) && src.Image? && src.width == 256 && src.height == 256
    ensures DdsSize(256, 256, false, true) == 115328
    ensures Jpg.JpgDxt1Of(compressor, src).len == 43776
  {
    PowerOfTwo256();
    Jpg.JpgDxt1Of256(compressor, src);
  }

  /** A 16 x 16 JPEG as DXT1: the estimate is the bare header, the converter
      returns the header and one 128-byte level. */
  lemma {:induction false} EstimateAt16(compressor: Compressor, src: Decoded)
    requires Valid(src) && src.Image? && src.width == 16 && src.height == 16
    ensures DdsSize(16, 16, false, true) == HeaderSize
    ensures Jpg.JpgDxt1Of(compressor, src).len == HeaderSize + 128
  {
    assert PowerOfTwo(16) by {
      PowerOfTwoIff(16);
      assert IsPow2(16) by { assert IsPow2(2); }
    }
    AreaIsProduct(16, 16);
    assert Levels(Jpg.Counted, 8, 8) == 0;
    assert Budget(Jpg.Counted, Dxt1, 16, 16) == 128;
  }

  /** The size memo: a map from path to size, never expired. */
  class SizeMemo {
    var sizes: map<string, int>

    constructor ()
      ensures sizes == map[]
    {
      sizes := map[];
    }

    /** `sizecache_get`: the stored size, or -1 for a name never set. */
    function Get(name: string): (r: int)
      reads this
      ensures name !in sizes ==> r == -1
      ensures name in sizes ==> r == sizes[name]
    {
      if name in sizes then sizes[name] else -1
    }

    /** `sizecache_set`: a later set overwrites, other names keep their
        sizes. */
    method Set(name: string, size: int)
      modifies this
      ensures sizes == old(sizes)[name := size]
      ensures Get(name) == size
      ensures forall n :: n != name ==> Get(n) == old(Get(n))
    {
      sizes := sizes[name := size];
    }
  }
}
