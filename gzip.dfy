/** The .gz probes of gzip.cpp. `ddsfs_gzip_header` checks the ID bytes and
    reads the ISIZE trailer (the uncompressed length modulo 2^32) that
    section 2.3.1 of RFC 1952 puts in the last four bytes of a member;
    `ddsfs_gzip` reads the same trailer to size its buffer and lets zlib
    inflate into it. The file is the byte sequence the reads see (`None` when
    `open` fails) and zlib is a parameter. */
module Gzip {
  import opened Wrappers
  import opened FileBytes

  /** ID1 and ID2 of a gzip member. */
  const Id1: Byte := 31
  const Id2: Byte := 139

  /** The IDs check `ddsfs_gzip_header` makes on the first two bytes. */
  predicate HasGzipId(s: seq<Byte>) {
    At(s, 0) == Id1 && At(s, 1) == Id2
  }

  /** Where the four-byte size read starts: four bytes before the end, or,
      when that seek fails on a shorter file, where the two-byte ID read
      left the file offset. */
  function TrailerOffset(n: nat): (off: nat)
    ensures n >= 4 ==> off + 4 == n
    ensures n < 4 ==> off == 2
  {
    if n >= 4 then n - 4 else 2
  }

  /** The size the header probe stores through `size` (a 32-bit `int`),
      or `None` for its -1. */
  function GzipHeader(file: Option<seq<Byte>>): (r: Option<int>)
    ensures file.None? ==> r.None?
    ensures file.Some? ==> (r.Some? <==> HasGzipId(file.value))
    ensures r.Some? && |file.value| >= 4 ==>
      var s := file.value; var n := |s|;
      r.value == ToInt32(U32LE(s[n - 4], s[n - 3], s[n - 2], s[n - 1]))
    ensures r.Some? ==> -(TwoTo31 as int) <= r.value < TwoTo31
  {
    match file
    case None => None
    case Some(s) =>
      if !HasGzipId(s) then None
      else
        var w := Window(s, TrailerOffset(|s|), 4);
        Some(ToInt32(U32LE(w[0], w[1], w[2], w[3])))
  }

  /** The probe looks at the ID bytes and the trailer and nothing else: two
      files of the same length that agree there (CM, FLG, MTIME and the
      compressed data may differ) probe alike. */
  lemma {:induction false} GzipHeaderIgnoresOtherBytes(s: seq<Byte>, t: seq<Byte>)
    requires |s| == |t| >= 4
    requires s[0] == t[0] && s[1] == t[1] && s[|s| - 4..] == t[|t| - 4..]
    ensures GzipHeader(Some(s)) == GzipHeader(Some(t))
  {
    var n := |s|;
    assert s[n - 4..][0] == s[n - 4] && s[n - 4..][3] == s[n - 1];
    assert s[n - 4..][1] == s[n - 3] && s[n - 4..][2] == s[n - 2];
  }

  /** Where the eight-byte footer read starts: eight bytes before the end,
      or the start of a shorter file, where the failed seek leaves the
      offset. */
  function FooterOffset(n: nat): (off: nat)
    ensures n >= 8 ==> off + 8 == n
    ensures n < 8 ==> off == 0
  {
    if n >= 8 then n - 8 else 0
  }

  /** `footer.len`: the second `uint32_t` of the footer read, the size of
      the buffer `ddsfs_gzip` allocates and the length it asks zlib for. */
  function Isize(s: seq<Byte>): (isize: nat)
    ensures isize < TwoTo32
    ensures |s| >= 8 ==>
      var n := |s|; isize == U32LE(s[n - 4], s[n - 3], s[n - 2], s[n - 1])
    ensures |s| < 8 ==> isize == U32LE(At(s, 4), At(s, 5), At(s, 6), At(s, 7))
  {
    var footer := Window(s, FooterOffset(|s|), 8);
    U32LE(footer[4], footer[5], footer[6], footer[7])
  }

  /** What `gzread` returns for a request of `len` bytes: its return value
      (-1 on error, fewer than `len` on a short member) and the bytes it
      writes into the buffer. */
  datatype Inflated = Inflated(count: int, bytes: seq<Byte>)

  /** zlib as `ddsfs_gzip` uses it: whether `gzdopen` succeeds, what
      `gzread` produces for a request, and whether `gzclose` returns Z_OK. */
  datatype Zlib = Zlib(opens: bool, inflate: nat -> Inflated, closes: bool)

  /** The outcome of `ddsfs_gzip`: -1 with no buffer, or its return value
      (`gzread`'s) with the buffer left in `*dst`. */
  datatype Gunzip = GunzipFailed | Gunzipped(count: int, buffer: seq<Byte>)

  /** `ddsfs_gzip`. The buffer has ISIZE bytes; zlib fills its front, and
      the rest (uninitialised in the source) is zero here. A short read is
      reported on stderr only, so it still succeeds with the short count;
      a failing `gzclose` frees the buffer and fails. */
  function DdsfsGzip(file: Option<seq<Byte>>, z: Zlib): (r: Gunzip)
    ensures r.GunzipFailed? <==> file.None? || !z.opens || !z.closes
    ensures r.Gunzipped? ==>
      && |r.buffer| == Isize(file.value)
      && r.count == z.inflate(Isize(file.value)).count
      && var out := z.inflate(|r.buffer|).bytes;
         forall i :: 0 <= i < |r.buffer| && i < |out| ==> r.buffer[i] == out[i]
  {
    match file
    case None => GunzipFailed
    case Some(s) =>
      if !z.opens then GunzipFailed
      else
        var len := Isize(s);
        var got := z.inflate(len);
        if !z.closes then GunzipFailed
        else Gunzipped(got.count, Window(got.bytes, 0, len))
  }

  /** On a well-formed member of at least eight bytes, the header probe
      reports the very length `ddsfs_gzip` allocates, as a 32-bit `int`. */
  lemma HeaderSizeIsAllocation(s: seq<Byte>, z: Zlib)
    requires |s| >= 8 && HasGzipId(s)
    requires DdsfsGzip(Some(s), z).Gunzipped?
    ensures GzipHeader(Some(s)) == Some(ToInt32(|DdsfsGzip(Some(s), z).buffer|))
  {
  }

  /** The two reads disagree on files shorter than eight bytes, where the
      footer seek fails and the footer is read from the start: on this
      seven-byte file the probe reads bytes 3 to 6 and reports 0x100, while
      `ddsfs_gzip` sizes its buffer from bytes 4 to 7 and allocates 1. */
  lemma ShortFileSizesDisagree()
    ensures var s: seq<Byte> := [Id1, Id2, 0, 0, 1, 0, 0];
      && GzipHeader(Some(s)) == Some(0x100)
      && Isize(s) == 1
  {
    var s: seq<Byte> := [Id1, Id2, 0, 0, 1, 0, 0];
    assert Window(s, 3, 4) == [0, 1, 0, 0];
  }
}
