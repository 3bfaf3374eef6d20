/** Reading a file's bytes the way the .xz and .gz probes do: fixed-size
    `read` calls into buffers. A read past the end of the file leaves the
    rest of the buffer as it was; the model fills it with zeros. */
module FileBytes {
  import opened Wrappers

  /** An unsigned byte, as an integer. The converters only copy bytes and
      use `bv8`; the probes compute with them instead (`b & 0x7F` taken as
      the value `b % 128`, groups of seven bits summed into a size, four
      bytes assembled into a `uint32_t`), and those sums and their
      round-trip proofs are stated over integers. */
  newtype Byte = x: int | 0 <= x < 256

  /** Byte `i` of the file, or 0 past its end. */
  function At(s: seq<Byte>, i: nat): Byte {
    if i < |s| then s[i] else 0
  }

  /** The `n` bytes a read at offset `off` leaves in an `n`-byte buffer. */
  function Window(s: seq<Byte>, off: nat, n: nat): (w: seq<Byte>)
    ensures |w| == n
    ensures forall i :: 0 <= i < n ==> w[i] == At(s, off + i)
    ensures off + n <= |s| ==> w == s[off..off + n]
  {
    seq(n, i requires 0 <= i < n => At(s, off + i))
  }

  const TwoTo31: nat := 0x8000_0000
  const TwoTo32: nat := 0x1_0000_0000

  /** Storing an unsigned value into a 32-bit `int`: the value with the
      same low 32 bits in the range of `int`. */
  function ToInt32(u: nat): (r: int)
    ensures -(TwoTo31 as int) <= r < TwoTo31
    ensures (u - r) % TwoTo32 == 0
    ensures u < TwoTo31 ==> r == u
  {
    var low := u % TwoTo32;
    if low < TwoTo31 then low else low - TwoTo32
  }

  /** Four bytes read into a `uint32_t` on a little-endian machine. */
  function U32LE(b0: Byte, b1: Byte, b2: Byte, b3: Byte): (r: nat)
    ensures r < TwoTo32
  {
    b0 as nat + 0x100 * b1 as nat + 0x1_0000 * b2 as nat + 0x100_0000 * b3 as nat
  }
}
