/** The DDS container header of ddsfs.h: the 32-word DDS_HEADER with its nested
    DDS_PIXELFORMAT, the flag constants the converters set, MINSIZE, and the
    `poweroftwo` test on 32-bit unsigned values. */
module DdsLayout {

  /** MINSIZE: the smallest mip level edge the current converters keep. */
  const MinSize: nat := 16

  /** sizeof(DDS_HEADER), magic included. */
  const HeaderSize: nat := 128

  /** Number of 32-bit words in DDS_HEADER and in DDS_PIXELFORMAT. */
  const HeaderWordCount: nat := 32
  const PixelFormatWordCount: nat := 8

  const U32Limit: nat := 0x1_0000_0000

  // Values of the DDS file format (DDS_HEADER / DDS_PIXELFORMAT reference).
  const DdsMagic: bv32 := 0x20534444          // "DDS " read as a little-endian word
  const DDSD_CAPS: bv32 := 0x1
  const DDSD_HEIGHT: bv32 := 0x2
  const DDSD_WIDTH: bv32 := 0x4
  const DDSD_PIXELFORMAT: bv32 := 0x1000
  const DDSD_MIPMAPCOUNT: bv32 := 0x20000
  const DDSCAPS_COMPLEX: bv32 := 0x8
  const DDSCAPS_TEXTURE: bv32 := 0x1000
  const DDSCAPS_MIPMAP: bv32 := 0x400000
  const DDPF_FOURCC: bv32 := 0x4
  const DDPF_RGB: bv32 := 0x40

  /** A four-character code packed as `a | b<<8 | c<<16 | d<<24`. */
  function FourCC(a: bv8, b: bv8, c: bv8, d: bv8): bv32 {
    (a as bv32) | ((b as bv32) << 8) | ((c as bv32) << 16) | ((d as bv32) << 24)
  }

  // ASCII codes of the letters used in the codes below.
  const CharD: bv8 := 0x44
  const CharX: bv8 := 0x58
  const CharT: bv8 := 0x54
  const Char1: bv8 := 0x31
  const Char5: bv8 := 0x35

  const FourCCDxt1: bv32 := FourCC(CharD, CharX, CharT, Char1)
  const FourCCDxt5: bv32 := FourCC(CharD, CharX, CharT, Char5)

  /** DDS_PIXELFORMAT (ddsfs.h:20-29). */
  datatype PixelFormat = PixelFormat(
    size: bv32, flags: bv32, fourCC: bv32, rgbBitCount: bv32,
    rMask: bv32, gMask: bv32, bMask: bv32, aMask: bv32)

  /** DDS_HEADER (ddsfs.h:30-46) without its reserved words, which the converters
      leave at zero (the header is cleared with memset before it is filled in). */
  datatype Header = Header(
    magic: bv32, size: bv32, flags: bv32, height: u32, width: u32,
    pitchOrLinearSize: u32, depth: u32, mipMapCount: u32,
    pf: PixelFormat,
    caps: bv32, caps2: bv32, caps3: bv32, caps4: bv32)

  /** The unsigned 32-bit counts of the header (dimensions, mip count). */
  newtype u32 = x: int | 0 <= x < 0x1_0000_0000

  /** The low k bits of x as a word, built bit by bit (k <= 32). */
  function Bits(x: nat, k: nat): bv32
    requires k <= 32
  {
    if k == 0 then 0 else (Bits(x / 2, k - 1) << 1) | (if x % 2 == 1 then 1 else 0)
  }

  /** A header count as the 32-bit word stored for it. */
  function Word(x: u32): bv32 {
    Bits(x as nat, 32)
  }

  const ZeroFormat := PixelFormat(0, 0, 0, 0, 0, 0, 0, 0)

  /** Conversion of a C `int` dimension to an `unsigned int` header field. */
  function U32(n: nat): u32 {
    (n % U32Limit) as u32
  }

  /** The header every converter starts from: magic, dwSize = 124, the
      caps/height/width/pixel-format flags, the dimensions and the texture cap. */
  function InitialHeader(width: nat, height: nat): (h: Header)
    ensures h.magic == DdsMagic && h.size == 124
    ensures h.flags == DDSD_CAPS | DDSD_HEIGHT | DDSD_WIDTH | DDSD_PIXELFORMAT
    ensures h.height == U32(height) && h.width == U32(width)
    ensures h.mipMapCount == 0 && h.caps == DDSCAPS_TEXTURE && h.pf == ZeroFormat
  {
    Header(DdsMagic, 124, DDSD_CAPS | DDSD_HEIGHT | DDSD_WIDTH | DDSD_PIXELFORMAT,
           U32(height), U32(width), 0, 0, 0, ZeroFormat, DDSCAPS_TEXTURE, 0, 0, 0)
  }

  /** The pixel format of a block-compressed level chain. */
  function FourCCFormat(code: bv32): (pf: PixelFormat)
    ensures pf.size == 32 && pf.flags == DDPF_FOURCC && pf.fourCC == code
    ensures pf.rgbBitCount == 0 && pf.aMask == 0
  {
    PixelFormat(32, DDPF_FOURCC, code, 0, 0, 0, 0, 0)
  }

  /** The pixel format of a 32-bit BGRA level chain. */
  function RgbFormat(alphaMask: bv32): (pf: PixelFormat)
    ensures pf.size == 32 && pf.flags == DDPF_RGB && pf.fourCC == 0 && pf.rgbBitCount == 32
    ensures pf.rMask == 0x00FF0000 && pf.gMask == 0x0000FF00 && pf.bMask == 0x000000FF
    ensures pf.aMask == alphaMask
  {
    PixelFormat(32, DDPF_RGB, 0, 32, 0x00FF0000, 0x0000FF00, 0x000000FF, alphaMask)
  }

  /** The eight words of DDS_PIXELFORMAT in declaration order. */
  function FormatWords(pf: PixelFormat): (ws: seq<bv32>)
    ensures |ws| == PixelFormatWordCount
  {
    [pf.size, pf.flags, pf.fourCC, pf.rgbBitCount, pf.rMask, pf.gMask, pf.bMask, pf.aMask]
  }

  function Zeros(n: nat): (ws: seq<bv32>)
    ensures |ws| == n && forall i | 0 <= i < n :: ws[i] == 0
  {
    seq(n, _ => 0)
  }

  /** The 32 words of DDS_HEADER in declaration order: eight fields, eleven
      reserved words, the pixel format, four caps words and one reserved word. */
  function Words(h: Header): (ws: seq<bv32>)
    ensures |ws| == HeaderWordCount
  {
    [h.magic, h.size, h.flags, Word(h.height), Word(h.width),
     Word(h.pitchOrLinearSize), Word(h.depth), Word(h.mipMapCount)]
    + Zeros(11)
    + FormatWords(h.pf)
    + [h.caps, h.caps2, h.caps3, h.caps4, 0]
  }

  /** One word as four little-endian bytes. */
  function LE32(x: bv32): (b: seq<bv8>)
    ensures |b| == 4
  {
    [(x & 0xFF) as bv8, ((x >> 8) & 0xFF) as bv8, ((x >> 16) & 0xFF) as bv8, ((x >> 24) & 0xFF) as bv8]
  }

  /** The word stored little-endian in four bytes. */
  function FromLE32(b0: bv8, b1: bv8, b2: bv8, b3: bv8): bv32 {
    (b0 as bv32) | ((b1 as bv32) << 8) | ((b2 as bv32) << 16) | ((b3 as bv32) << 24)
  }

  /** The memory image of a word array on a little-endian machine. */
  function Serialize(ws: seq<bv32>): (b: seq<bv8>)
    ensures |b| == 4 * |ws|
  {
    if ws == [] then [] else LE32(ws[0]) + Serialize(ws[1..])
  }

  /** Word i of a byte image (the inverse of Serialize, one word at a time). */
  function ReadWord(b: seq<bv8>, i: nat): bv32
    requires 4 * i + 4 <= |b|
  {
    FromLE32(b[4 * i], b[4 * i + 1], b[4 * i + 2], b[4 * i + 3])
  }

  /** What `memcpy(dstpos, &header, sizeof(header))` puts in the output buffer. */
  function HeaderBytes(h: Header): (b: seq<bv8>)
    ensures |b| == HeaderSize
  {
    Serialize(Words(h))
  }

  lemma {:induction false} LE32RoundTrip(x: bv32)
    ensures FromLE32(LE32(x)[0], LE32(x)[1], LE32(x)[2], LE32(x)[3]) == x
  {
  }

  /** Serialize places word i at bytes 4i .. 4i+3. */
  lemma {:induction false} SerializeAt(ws: seq<bv32>, i: nat)
    requires i < |ws|
    ensures Serialize(ws)[4 * i .. 4 * i + 4] == LE32(ws[i])
  {
    if i > 0 {
      SerializeAt(ws[1..], i - 1);
      assert Serialize(ws) == LE32(ws[0]) + Serialize(ws[1..]);
      assert Serialize(ws)[4 * i .. 4 * i + 4] == Serialize(ws[1..])[4 * (i - 1) .. 4 * (i - 1) + 4];
    }
  }

  /** Reading word i back from the serialized image returns word i. */
  lemma {:induction false} ReadSerialized(ws: seq<bv32>, i: nat)
    requires i < |ws|
    ensures ReadWord(Serialize(ws), i) == ws[i]
  {
    SerializeAt(ws, i);
    var b := Serialize(ws);
    assert b[4 * i] == LE32(ws[i])[0] && b[4 * i + 1] == LE32(ws[i])[1];
    assert b[4 * i + 2] == LE32(ws[i])[2] && b[4 * i + 3] == LE32(ws[i])[3];
    LE32RoundTrip(ws[i]);
  }

  /** The words of DDS_HEADER: the eight leading fields are words 0 to 7
      (dwMipMapCount is word 7), and the eleven reserved words after them
      are zero. */
  lemma {:induction false} WordsLayout(h: Header)
    ensures Words(h)[0] == h.magic && Words(h)[1] == h.size && Words(h)[2] == h.flags
    ensures Words(h)[3] == Word(h.height) && Words(h)[4] == Word(h.width)
    ensures Words(h)[7] == Word(h.mipMapCount)
    ensures forall i | 8 <= i < 19 :: Words(h)[i] == 0
  {
    var ws := Words(h);
    var fields := [h.magic, h.size, h.flags, Word(h.height), Word(h.width),
                   Word(h.pitchOrLinearSize), Word(h.depth), Word(h.mipMapCount)];
    var rest := Zeros(11) + FormatWords(h.pf) + [h.caps, h.caps2, h.caps3, h.caps4, 0];
    assert ws == fields + rest;
    assert ws[0] == fields[0] && ws[1] == fields[1] && ws[2] == fields[2];
    assert ws[3] == fields[3] && ws[4] == fields[4] && ws[7] == fields[7];
    forall i | 8 <= i < 19 ensures ws[i] == 0 {
      assert ws[i] == rest[i - 8] == Zeros(11)[i - 8];
    }
  }

  /** The pixel format is words 19 to 26 (dwFourCC is word 21), dwCaps is
      word 27 and the last word is zero. */
  lemma {:induction false} FormatLayout(h: Header)
    ensures Words(h)[19..27] == FormatWords(h.pf)
    ensures Words(h)[21] == h.pf.fourCC && Words(h)[27] == h.caps && Words(h)[31] == 0
  {
    var ws := Words(h);
    var front := [h.magic, h.size, h.flags, Word(h.height), Word(h.width),
                   Word(h.pitchOrLinearSize), Word(h.depth), Word(h.mipMapCount)] + Zeros(11);
    var pf := FormatWords(h.pf);
    var caps := [h.caps, h.caps2, h.caps3, h.caps4, 0];
    assert ws == front + pf + caps;
    assert ws[19..27] == pf;
    assert ws[21] == pf[2];
    assert ws[27] == caps[0] && ws[31] == caps[4];
  }

  /** The 128-byte header image: dwSize (124) is its length without the magic,
      the 8-word pixel format is 32 bytes long (its own dwSize), and every word
      reads back from its offset, so dwMipMapCount sits at byte 28, the pixel
      format at byte 76, dwFourCC at byte 84 and dwCaps at byte 108. */
  lemma {:induction false} HeaderImage(h: Header, i: nat)
    requires i < HeaderWordCount
    ensures |HeaderBytes(h)| == 124 + 4 && 4 * PixelFormatWordCount == 32
    ensures ReadWord(HeaderBytes(h), i) == Words(h)[i]
  {
    ReadSerialized(Words(h), i);
  }

  /** Bitwise AND of two non-negative integers, bit by bit from the low end. */
  function BitAnd(a: nat, b: nat): nat {
    if a == 0 || b == 0 then 0
    else 2 * BitAnd(a / 2, b / 2) + (if a % 2 == 1 && b % 2 == 1 then 1 else 0)
  }

  /** `poweroftwo(x)` of ddsfs.h: `!(x & (x - 1))` on an unsigned 32-bit value,
      where `x - 1` wraps to 0xFFFFFFFF for x = 0. */
  predicate PowerOfTwo(x: nat)
    requires x < U32Limit
  {
    BitAnd(x, (x + U32Limit - 1) % U32Limit) == 0
  }

  /** x is 2^k for some k >= 0. */
  predicate IsPow2(x: nat)
    decreases x
  {
    x == 1 || (x >= 2 && x % 2 == 0 && IsPow2(x / 2))
  }

  lemma {:induction false} BitAndSelf(a: nat)
    ensures BitAnd(a, a) == a
  {
    if a > 0 {
      BitAndSelf(a / 2);
    }
  }

  /** `poweroftwo` holds exactly of zero and of the powers of two. */
  lemma {:induction false} PowerOfTwoIff(x: nat)
    requires x < U32Limit
    ensures PowerOfTwo(x) <==> x == 0 || IsPow2(x)
  {
    if x >= 2 {
      assert (x + U32Limit - 1) % U32Limit == x - 1;
      if x % 2 == 0 {
        var y := x / 2;
        assert (x - 1) / 2 == y - 1 && (x - 1) % 2 == 1;
        assert BitAnd(x, x - 1) == 2 * BitAnd(y, y - 1);
        PowerOfTwoIff(y);
        assert (y + U32Limit - 1) % U32Limit == y - 1;
      } else {
        var z := x / 2;
        assert (x - 1) / 2 == z && (x - 1) % 2 == 0;
        BitAndSelf(z);
        assert BitAnd(x, x - 1) == 2 * z;
      }
    }
  }

  /** The value 2^k. */
  function Pow2(k: nat): (p: nat)
    ensures p >= 1
  {
    if k == 0 then 1 else 2 * Pow2(k - 1)
  }

  lemma {:induction false} Pow2IsPow2(k: nat)
    ensures IsPow2(Pow2(k))
  {
    if k > 0 {
      Pow2IsPow2(k - 1);
      assert Pow2(k) / 2 == Pow2(k - 1);
    }
  }
}
