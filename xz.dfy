/** xz.cpp: `decode`, the reader of the multibyte integers of the .xz file
    format (section 1.2 of "The .xz File Format"), and `ddsfs_xz_header`,
    which finds the uncompressed size in the first block header (sections
    2.1.1 and 3.1.1 to 3.1.4). */
module Xz {
  import opened Wrappers
  import opened FileBytes

  /** Bytes 0 to 5 of an .xz stream. */
  const Magic: seq<Byte> := [0xFD, 0x37, 0x7A, 0x58, 0x5A, 0x00]

  /** The longest multibyte integer: nine bytes of seven bits. */
  const MaxBytes: nat := 9

  /** The seven payload bits of a byte (`b & 0x7F`), and its continuation
      bit (`b & 0x80`). */
  function Group(b: Byte): (g: nat)
    ensures g < 128
  {
    b as nat % 128
  }

  predicate Continues(b: Byte) {
    b >= 0x80
  }

  /** `b & mask != 0` for a one-bit mask. */
  predicate Flag(b: Byte, mask: nat)
    requires mask > 0
  {
    (b as nat / mask) % 2 == 1
  }

  function Pow128(k: nat): (p: nat)
    ensures p >= 1
  {
    if k == 0 then 1 else 128 * Pow128(k - 1)
  }

  /** `g << (7 * k)`. */
  function Shl(g: nat, k: nat): (r: nat)
  {
    if k == 0 then g else 128 * Shl(g, k - 1)
  }

  /** A seven-bit group shifted by `7 k` stays below `128^(k + 1)`. */
  lemma {:induction false} ShlBound(g: nat, k: nat)
    requires g < 128
    ensures Shl(g, k) <= 127 * Pow128(k)
  {
    if k > 0 {
      ShlBound(g, k - 1);
    }
  }

  /** The number the first `n` bytes spell: the group of byte j shifted
      left by 7 j. */
  function Value(buf: seq<Byte>, n: nat): (v: nat)
    ensures v < Pow128(n)
  {
    if n == 0 then 0
    else
      ShlBound(Group(At(buf, n - 1)), n - 1);
      Value(buf, n - 1) + Shl(Group(At(buf, n - 1)), n - 1)
  }

  /** `size_max` capped at nine. */
  function Cap(sizeMax: nat): (c: nat)
    ensures c <= MaxBytes && (sizeMax > 0 ==> c > 0)
  {
    if sizeMax > MaxBytes then MaxBytes else sizeMax
  }

  /** A well-formed integer of `n` bytes within the cap: every byte but
      the last continues, and no byte after the first is zero. */
  predicate Accepted(buf: seq<Byte>, cap: nat, n: nat) {
    && 1 <= n <= cap
    && !Continues(At(buf, n - 1))
    && (forall j :: 0 <= j < n - 1 ==> Continues(At(buf, j)))
    && (forall j :: 1 <= j < n ==> At(buf, j) != 0)
  }

  lemma {:induction false} AcceptedUnique(buf: seq<Byte>, cap: nat, n: nat, m: nat)
    requires Accepted(buf, cap, n) && Accepted(buf, cap, m)
    ensures n == m
  {
  }

  /** Where the loop of `decode` stops, starting after byte `i - 1`: at the
      first byte without the continuation bit, at the cap, or before a
      zero byte. */
  function Stop(buf: seq<Byte>, cap: nat, i: nat): (s: nat)
    requires 1 <= i <= cap
    ensures i <= s <= cap
    decreases cap - i
  {
    if !Continues(At(buf, i - 1)) || i >= cap || At(buf, i) == 0 then i else Stop(buf, cap, i + 1)
  }

  /** The loop ends on a byte without the continuation bit exactly when the
      bytes hold a well-formed integer, and then that is where it ends. */
  lemma {:induction false} StopAccepted(buf: seq<Byte>, cap: nat, i: nat)
    requires 1 <= i <= cap
    requires forall j :: 0 <= j < i - 1 ==> Continues(At(buf, j))
    requires forall j :: 1 <= j < i ==> At(buf, j) != 0
    ensures !Continues(At(buf, Stop(buf, cap, i) - 1)) <==> exists n :: Accepted(buf, cap, n)
    ensures !Continues(At(buf, Stop(buf, cap, i) - 1)) ==> Accepted(buf, cap, Stop(buf, cap, i))
    decreases cap - i
  {
    if !Continues(At(buf, i - 1)) {
      assert Accepted(buf, cap, i);
    } else if i >= cap || At(buf, i) == 0 {
      forall n: nat ensures !Accepted(buf, cap, n) {
        if 1 <= n < i {
          assert Continues(At(buf, n - 1));
        }
      }
    } else {
      StopAccepted(buf, cap, i + 1);
    }
  }

  /** What `decode(buf, size_max, &num)` returns and leaves in `num`. */
  datatype Decoded = Decoded(len: nat, num: nat)

  /** `decode` as a function. `prior` is `*num` before the call, left alone
      when `size_max` is 0; a failed decode still leaves the groups it
      consumed in `*num`, which stays below 2^63. */
  function DecodeOf(buf: seq<Byte>, sizeMax: nat, prior: nat): (r: Decoded)
    ensures sizeMax > 0 ==> r.num < Pow128(MaxBytes)
  {
    if sizeMax == 0 then Decoded(0, prior)
    else
      var s := Stop(buf, Cap(sizeMax), 1);
      PowMono(s, MaxBytes);
      Decoded(if Continues(At(buf, s - 1)) then 0 else s, Value(buf, s))
  }

  /** What `decode` returns: 0 for `size_max == 0` (with `*num` untouched)
      or for bytes that do not hold a well-formed integer within the cap;
      otherwise the length of that integer, whose value is in `*num`. */
  lemma {:induction false} DecodeOfAccepts(buf: seq<Byte>, sizeMax: nat, prior: nat)
    ensures var r := DecodeOf(buf, sizeMax, prior);
      && (sizeMax == 0 ==> r == Decoded(0, prior))
      && (sizeMax > 0 ==> (r.len != 0 <==> exists n :: Accepted(buf, Cap(sizeMax), n)))
      && (r.len != 0 ==> Accepted(buf, Cap(sizeMax), r.len) && r.num == Value(buf, r.len))
  {
    if sizeMax > 0 {
      StopAccepted(buf, Cap(sizeMax), 1);
    }
  }

  lemma {:induction false} PowMono(a: nat, b: nat)
    requires a <= b
    ensures Pow128(a) <= Pow128(b)
    decreases b
  {
    if a < b {
      PowMono(a, b - 1);
    }
  }

  /** `decode`: the loop `while (buf[i++] & 0x80)` of xz.cpp. Each new group
      lies above the bits already in `num` (`Value` is below `Pow128(i)`),
      so the `|=` of the source adds it. */
  method Decode(buf: seq<Byte>, sizeMax: nat, prior: nat) returns (n: nat, num: nat)
    ensures Decoded(n, num) == DecodeOf(buf, sizeMax, prior)
  {
    if sizeMax == 0 {
      return 0, prior;
    }
    var cap := sizeMax;
    if cap > 9 {
      cap := 9;
    }
    num := Group(At(buf, 0));
    var more := Continues(At(buf, 0));
    var i := 1;
    while more
      invariant 1 <= i <= cap && cap == Cap(sizeMax)
      invariant more == Continues(At(buf, i - 1))
      invariant Stop(buf, cap, i) == Stop(buf, cap, 1)
      invariant num == Value(buf, i)
      decreases cap - i
    {
      if i >= cap || At(buf, i) == 0 {
        assert Stop(buf, cap, i) == i;
        return 0, num;
      }
      num := num + Shl(Group(At(buf, i)), i);
      more := Continues(At(buf, i));
      assert Value(buf, i + 1) == num;
      i := i + 1;
    }
    assert Stop(buf, cap, i) == i;
    n := i;
  }

  /** `decode` looks at no byte beyond the cap. */
  lemma {:induction false} DecodeReadsWithinCap(buf: seq<Byte>, other: seq<Byte>, sizeMax: nat, prior: nat)
    requires forall j :: 0 <= j < Cap(sizeMax) ==> At(buf, j) == At(other, j)
    ensures DecodeOf(buf, sizeMax, prior) == DecodeOf(other, sizeMax, prior)
  {
    if sizeMax > 0 {
      var cap := Cap(sizeMax);
      StopSame(buf, other, cap, 1);
      ValueSame(buf, other, Stop(buf, cap, 1));
    }
  }

  lemma {:induction false} StopSame(buf: seq<Byte>, other: seq<Byte>, cap: nat, i: nat)
    requires 1 <= i <= cap
    requires forall j :: 0 <= j < cap ==> At(buf, j) == At(other, j)
    ensures Stop(buf, cap, i) == Stop(other, cap, i)
    decreases cap - i
  {
    if i < cap && Continues(At(buf, i - 1)) && At(buf, i) != 0 {
      StopSame(buf, other, cap, i + 1);
    }
  }

  lemma {:induction false} ValueSame(buf: seq<Byte>, other: seq<Byte>, n: nat)
    requires forall j :: 0 <= j < n ==> At(buf, j) == At(other, j)
    ensures Value(buf, n) == Value(other, n)
  {
    if n > 0 {
      ValueSame(buf, other, n - 1);
    }
  }

  /** The minimal encoding of section 1.2: seven bits per byte, least
      significant first, the continuation bit on every byte but the last. */
  function Encode(v: nat): (e: seq<Byte>)
    ensures |e| >= 1
  {
    if v < 128 then [v as Byte] else [(v % 128 + 128) as Byte] + Encode(v / 128)
  }


  /** An encoding's bytes: a continuation bit on all but the last, and no
      zero byte after the first (the last byte of a value of at least 128
      holds its top, nonzero group). */
  lemma {:induction false} EncodeBytes(v: nat)
    ensures var e := Encode(v);
      && !Continues(e[|e| - 1])
      && (forall j :: 0 <= j < |e| - 1 ==> Continues(e[j]))
      && (forall j :: 1 <= j < |e| ==> e[j] != 0)
      && (v > 0 ==> e[|e| - 1] != 0)
    decreases v
  {
    var e := Encode(v);
    if v >= 128 {
      var b := (v % 128 + 128) as Byte;
      var t := Encode(v / 128);
      EncodeBytes(v / 128);
      assert e == [b] + t;
      assert Continues(b);
      forall j | 1 <= j < |e| ensures e[j] == t[j - 1] { }
    }
  }

  /** An encoding spells its value. */
  lemma {:induction false} EncodeValue(v: nat)
    ensures Value(Encode(v), |Encode(v)|) == v
    decreases v
  {
    var e := Encode(v);
    if v < 128 {
      assert At(e, 0) == v as Byte;
    } else {
      var lo, hi := v % 128, v / 128;
      assert v == lo + 128 * hi;
      var b := (lo + 128) as Byte;
      var t := Encode(hi);
      EncodeValue(hi);
      assert e == [b] + t;
      ValueCons(b, t, |t|);
      assert Group(b) == lo;
    }
  }

  /** A value below 128^k takes at most k bytes. */
  lemma {:induction false} EncodeFits(v: nat, k: nat)
    requires k >= 1 && v < Pow128(k)
    ensures |Encode(v)| <= k
    decreases v
  {
    if v >= 128 {
      assert k >= 2;
      assert v / 128 < Pow128(k - 1);
      EncodeFits(v / 128, k - 1);
    }
  }

  /** Putting a byte in front shifts the rest up by seven bits. */
  lemma {:induction false} ValueCons(b: Byte, t: seq<Byte>, n: nat)
    ensures Value([b] + t, n + 1) == Group(b) + 128 * Value(t, n)
  {
    if n > 0 {
      ValueCons(b, t, n - 1);
      assert At([b] + t, n) == At(t, n - 1);
    } else {
      assert At([b] + t, 0) == b;
    }
  }

  /** `decode` reads back every value below 2^63 from its minimal
      encoding, whatever follows it, consuming exactly the encoding. */
  lemma {:induction false} DecodeEncode(v: nat, rest: seq<Byte>, prior: nat)
    requires v < Pow128(MaxBytes)
    ensures DecodeOf(Encode(v) + rest, MaxBytes, prior) == Decoded(|Encode(v)|, v)
  {
    var e := Encode(v);
    var buf := e + rest;
    var n := |e|;
    EncodeBytes(v);
    EncodeValue(v);
    EncodeFits(v, MaxBytes);
    forall j | 0 <= j < n ensures At(buf, j) == At(e, j) {
      assert buf[j] == e[j];
    }
    assert Accepted(buf, MaxBytes, n);
    var r := DecodeOf(buf, MaxBytes, prior);
    DecodeOfAccepts(buf, MaxBytes, prior);
    AcceptedUnique(buf, MaxBytes, n, r.len);
    ValueSame(buf, e, n);
  }

  /** `ddsfs_xz_header` on a file (`None` when open fails): the 12-byte
      stream header must start with the magic bytes; the block header's
      size byte gives its length, (size + 1) * 4, and its flags say
      whether a compressed size (0x40) and an uncompressed size (0x80)
      follow. The uncompressed size, stored into an `int`, is the result;
      `None` is the -1 of every failure. */
  function XzHeader(file: Option<seq<Byte>>): (r: Option<int>)
    ensures file.None? ==> r.None?
    ensures file.Some? ==> (r.Some? <==> Window(file.value, 0, 6) == Magic && Flag(At(file.value, 13), 0x80))
    ensures r.Some? ==> -(TwoTo31 as int) <= r.value < TwoTo31
  {
    if file.None? then None
    else
      var bytes := file.value;
      if Window(bytes, 0, 6) != Magic then None
      else
        var flags := At(bytes, 13);
        if !Flag(flags, 0x80) then None
        else Some(ToInt32(UncompressedSize(bytes)))
  }

  /** The block header's length in bytes, from its first byte. */
  function BlockHeaderLength(sizeByte: Byte): (len: nat)
    ensures len >= 4 && len % 4 == 0
  {
    (sizeByte as nat + 1) * 4
  }

  /** The uncompressed size of the first block header, read from the
      bytes after its size and flags bytes. */
  function UncompressedSize(bytes: seq<Byte>): (u: nat)
    ensures u < Pow128(MaxBytes)
  {
    SizeField(BlockData(bytes), Flag(At(bytes, 13), 0x40))
  }

  /** The `len - 2` bytes read after the block header's size and flags. */
  function BlockData(bytes: seq<Byte>): seq<Byte> {
    Window(bytes, 14, BlockHeaderLength(At(bytes, 12)) - 2)
  }

  /** The integer after the compressed-size field when there is one (`skip`),
      the first one otherwise; both are read with a cap of nine bytes, past
      the end of `data` too (zeros here). A failed read of the compressed
      size advances by 0. */
  function SizeField(data: seq<Byte>, skip: bool): (u: nat)
    ensures u < Pow128(MaxBytes)
  {
    var cur := if skip then DecodeOf(data, MaxBytes, 0).len else 0;
    DecodeOf(if cur <= |data| then data[cur..] else [], MaxBytes, 0).num
  }

  /** The size field holds the encoded `v`, after the encoded `c` when
      there is a compressed size: it reads back `v`. */
  lemma {:induction false} SizeFieldEncoded(c: nat, v: nat, rest: seq<Byte>, skip: bool)
    requires c < Pow128(MaxBytes) && v < Pow128(MaxBytes)
    ensures SizeField((if skip then Encode(c) else []) + Encode(v) + rest, skip) == v
  {
    var data := (if skip then Encode(c) else []) + Encode(v) + rest;
    if skip {
      assert data == Encode(c) + (Encode(v) + rest);
      DecodeEncode(c, Encode(v) + rest, 0);
      assert data[|Encode(c)|..] == Encode(v) + rest;
    } else {
      assert data[0..] == Encode(v) + rest;
    }
    DecodeEncode(v, rest, 0);
  }

  /** A block header whose flags announce an uncompressed size `v`, encoded
      after the compressed size `c` when flag 0x40 is set, makes the probe
      report `v` as an `int`. */
  lemma {:induction false} XzHeaderReportsSize(bytes: seq<Byte>, c: nat, v: nat)
    requires Window(bytes, 0, 6) == Magic && Flag(At(bytes, 13), 0x80)
    requires c < Pow128(MaxBytes) && v < Pow128(MaxBytes)
    requires var field := (if Flag(At(bytes, 13), 0x40) then Encode(c) else []) + Encode(v);
      && |field| <= BlockHeaderLength(At(bytes, 12)) - 2
      && Window(bytes, 14, |field|) == field
    ensures XzHeader(Some(bytes)) == Some(ToInt32(v))
  {
    var skip := Flag(At(bytes, 13), 0x40);
    var field := (if skip then Encode(c) else []) + Encode(v);
    var data := BlockData(bytes);
    WindowPrefix(bytes, 14, |field|, |data|);
    assert data == field + data[|field|..];
    SizeFieldEncoded(c, v, data[|field|..], skip);
  }

  /** A shorter read at the same offset is a prefix of a longer one. */
  lemma {:induction false} WindowPrefix(s: seq<Byte>, off: nat, n: nat, m: nat)
    requires n <= m
    ensures Window(s, off, m)[..n] == Window(s, off, n)
  {
  }

  /** The probe never looks past the block header: files that agree on
      the stream header and the block header get the same answer. */
  lemma {:induction false} XzHeaderReadsBlockHeaderOnly(bytes: seq<Byte>, other: seq<Byte>)
    requires forall j :: 0 <= j < 12 + BlockHeaderLength(At(bytes, 12)) ==> At(bytes, j) == At(other, j)
    ensures XzHeader(Some(bytes)) == XzHeader(Some(other))
  {
    var len := BlockHeaderLength(At(bytes, 12));
    assert At(bytes, 12) == At(other, 12) && At(bytes, 13) == At(other, 13);
    WindowsAgree(bytes, other, 0, 6);
    WindowsAgree(bytes, other, 14, len - 2);
    assert BlockData(bytes) == BlockData(other);
  }

  /** Reads at the same place in files that agree there see the same bytes. */
  lemma {:induction false} WindowsAgree(s: seq<Byte>, t: seq<Byte>, off: nat, n: nat)
    requires forall j :: off <= j < off + n ==> At(s, j) == At(t, j)
    ensures Window(s, off, n) == Window(t, off, n)
  {
    forall i | 0 <= i < n ensures Window(s, off, n)[i] == Window(t, off, n)[i] {
      assert At(s, off + i) == At(t, off + i);
    }
  }

  /** A malformed size is reported as if it were valid: with the bytes
      0x85 0x00 the size field ends on a zero byte, which `decode` rejects
      by returning 0, yet the probe succeeds with the five it had already
      accumulated. */
  lemma {:induction false} XzHeaderKeepsRejectedSize()
    ensures var bytes := Magic + [0, 0, 0, 0, 0, 0] + [0, 0x80, 0x85, 0x00];
      && DecodeOf([0x85, 0x00], MaxBytes, 0).len == 0
      && XzHeader(Some(bytes)) == Some(5)
  {
    var bytes := Magic + [0, 0, 0, 0, 0, 0] + [0, 0x80, 0x85, 0x00];
    var data: seq<Byte> := [0x85, 0x00];
    assert Continues(0x85) && Group(0x85) == 5;
    assert Stop(data, MaxBytes, 1) == 1;
    assert Window(bytes, 14, 2) == data;
    assert Window(bytes, 0, 6) == Magic;
    assert At(bytes, 13) == 0x80 && At(bytes, 12) == 0;
    assert data[0..] == data;
    assert Value(data, 1) == 5;
  }
}
