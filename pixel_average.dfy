/** The pixel arithmetic of halveimage.cpp, scalar path: a pixel is a 32-bit
    word holding four 8-bit channels. */
module PixelAverage {

  /** avg2: the per-byte floor average of two pixels. The mask 0xfefefefe drops
      the bit that would carry into the next byte before the shift. */
  function Avg2(a: bv32, b: bv32): bv32 {
    (((a ^ b) & 0xfefefefe) >> 1) + (a & b)
  }

  /** avg4: the average of the averages of two horizontal pairs. */
  function Avg4(a0: bv32, a1: bv32, b0: bv32, b1: bv32): bv32 {
    Avg2(Avg2(a0, a1), Avg2(b0, b1))
  }

  /** The four 8-bit channels of a pixel, lowest byte first. */
  datatype Channel = Byte0 | Byte1 | Byte2 | Byte3

  /** The value of one channel of a pixel, below 256. */
  function Lane(x: bv32, ch: Channel): bv32
  {
    match ch
    case Byte0 => x & 0xFF
    case Byte1 => (x >> 8) & 0xFF
    case Byte2 => (x >> 16) & 0xFF
    case Byte3 => (x >> 24) & 0xFF
  }

  /** The floor of the mean of two channel values. */
  function Mean(x: bv32, y: bv32): bv32 {
    (x + y) >> 1
  }

  /** Channel `ch` of pixel m is the floor mean of that channel of x and y. */
  predicate MeanLane(m: bv32, x: bv32, y: bv32, ch: Channel) {
    Lane(m, ch) == Mean(Lane(x, ch), Lane(y, ch))
  }

  lemma Avg2Byte0(a: bv32, b: bv32) ensures MeanLane(Avg2(a, b), a, b, Byte0) {}
  lemma Avg2Byte1(a: bv32, b: bv32) ensures MeanLane(Avg2(a, b), a, b, Byte1) {}
  lemma Avg2Byte2(a: bv32, b: bv32) ensures MeanLane(Avg2(a, b), a, b, Byte2) {}
  lemma Avg2Byte3(a: bv32, b: bv32) ensures MeanLane(Avg2(a, b), a, b, Byte3) {}

  /** Every channel of avg2 is the floor of the mean of the two input channels:
      no carry crosses from one channel into the next. */
  lemma Avg2Lanes(a: bv32, b: bv32)
    ensures MeanLane(Avg2(a, b), a, b, Byte0) && MeanLane(Avg2(a, b), a, b, Byte1)
    ensures MeanLane(Avg2(a, b), a, b, Byte2) && MeanLane(Avg2(a, b), a, b, Byte3)
  {
    Avg2Byte0(a, b);
    Avg2Byte1(a, b);
    Avg2Byte2(a, b);
    Avg2Byte3(a, b);
  }

  lemma Avg2Commutes(a: bv32, b: bv32)
    ensures Avg2(a, b) == Avg2(b, a)
  {
  }

  lemma Avg2Idempotent(a: bv32)
    ensures Avg2(a, a) == a
  {
  }

  /** Channel `ch` of m is the floor mean of the floor means of the channels of
      the pairs (a0, a1) and (b0, b1). */
  predicate MeanOfPairs(m: bv32, a0: bv32, a1: bv32, b0: bv32, b1: bv32, ch: Channel) {
    Lane(m, ch) == Mean(Mean(Lane(a0, ch), Lane(a1, ch)), Mean(Lane(b0, ch), Lane(b1, ch)))
  }

  lemma MeanOfMeans(m: bv32, p: bv32, q: bv32, a0: bv32, a1: bv32, b0: bv32, b1: bv32, ch: Channel)
    requires MeanLane(p, a0, a1, ch) && MeanLane(q, b0, b1, ch) && MeanLane(m, p, q, ch)
    ensures MeanOfPairs(m, a0, a1, b0, b1, ch)
  {
  }

  /** Every channel of avg4 is the floor mean of the two pair means. */
  lemma Avg4Lanes(a0: bv32, a1: bv32, b0: bv32, b1: bv32)
    ensures MeanOfPairs(Avg4(a0, a1, b0, b1), a0, a1, b0, b1, Byte0)
    ensures MeanOfPairs(Avg4(a0, a1, b0, b1), a0, a1, b0, b1, Byte1)
    ensures MeanOfPairs(Avg4(a0, a1, b0, b1), a0, a1, b0, b1, Byte2)
    ensures MeanOfPairs(Avg4(a0, a1, b0, b1), a0, a1, b0, b1, Byte3)
  {
    var p, q := Avg2(a0, a1), Avg2(b0, b1);
    var m := Avg4(a0, a1, b0, b1);
    Avg2Lanes(a0, a1);
    Avg2Lanes(b0, b1);
    Avg2Lanes(p, q);
    MeanOfMeans(m, p, q, a0, a1, b0, b1, Byte0);
    MeanOfMeans(m, p, q, a0, a1, b0, b1, Byte1);
    MeanOfMeans(m, p, q, a0, a1, b0, b1, Byte2);
    MeanOfMeans(m, p, q, a0, a1, b0, b1, Byte3);
  }

  /** A uniform 2x2 block keeps its colour. */
  lemma Avg4Uniform(a: bv32)
    ensures Avg4(a, a, a, a) == a
  {
    Avg2Idempotent(a);
  }
}
