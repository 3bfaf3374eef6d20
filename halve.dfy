/** The 2x2 box filter of halveimage.cpp, scalar path. The source image is a
    block of `w`-pixel rows inside a buffer of 32-bit pixels; the output has
    one row of w/2 pixels per pair of source rows (an odd last column is
    ignored). */
module Halve {
  import opened PixelAverage
  import opened Arith
  import opened Splicing

  /** How four source pixels (two from each row) become one output pixel;
      halveimage uses Avg4. The structural facts below hold for any choice. */
  type Average = (bv32, bv32, bv32, bv32) -> bv32

  /** One output row: pixel x averages columns 2x and 2x+1 of the source rows
      starting at `row1` and `row2` of `s`. */
  function HalfRow(avg: Average, s: seq<bv32>, row1: nat, row2: nat, n: nat): (r: seq<bv32>)
    requires row1 + 2 * n <= |s| && row2 + 2 * n <= |s|
    ensures |r| == n
  {
    seq(n, x requires 0 <= x < n => avg(s[row1 + 2 * x], s[row1 + 2 * x + 1], s[row2 + 2 * x], s[row2 + 2 * x + 1]))
  }

  lemma {:induction false} AreaTwoRows(w: nat, j: nat)
    ensures Area(w, j + 2) == Area(w, j) + 2 * w
  {
    AreaAdd(w, j, 2);
  }

  /** The first k output rows halveimage writes for a source s of w-pixel
      rows: output row i averages source rows 2i and 2i + 1. */
  function Halved(avg: Average, s: seq<bv32>, w: nat, k: nat): (r: seq<bv32>)
    requires Area(w, 2 * k) <= |s|
    ensures |r| == Area(w / 2, k)
  {
    if k == 0 then []
    else
      AreaTwoRows(w, 2 * (k - 1));
      var top := Area(w, 2 * (k - 1));
      Halved(avg, s, w, k - 1) + HalfRow(avg, s, top, top + w, w / 2)
  }

  /** Output pixel c of row k averages columns 2c and 2c + 1 of source rows
      2k and 2k + 1. */
  lemma {:induction false} HalvedRowAt(avg: Average, s: seq<bv32>, w: nat, k: nat, c: nat)
    requires Area(w, 2 * k) + 2 * w <= |s| && c < w / 2
    ensures Area(w / 2, k) + c < Area(w / 2, k + 1)
    ensures Halved(avg, s, w, k + 1)[Area(w / 2, k) + c]
         == avg(s[Area(w, 2 * k) + 2 * c], s[Area(w, 2 * k) + 2 * c + 1],
                s[Area(w, 2 * k) + w + 2 * c], s[Area(w, 2 * k) + w + 2 * c + 1])
  {
    HalvedNext(avg, s, w, k);
  }

  /** Output pixel (rr, c) averages columns 2c and 2c + 1 of source rows 2rr
      and 2rr + 1; it sits in output row rr, rows being w/2 pixels long. */
  lemma {:induction false} HalvedAt(avg: Average, s: seq<bv32>, w: nat, k: nat, rr: nat, c: nat)
    requires Area(w, 2 * k) <= |s| && rr < k && c < w / 2
    ensures Area(w / 2, rr) + c < Area(w / 2, k)
    ensures Area(w, 2 * rr) + w + 2 * c + 1 < |s|
    ensures Halved(avg, s, w, k)[Area(w / 2, rr) + c]
         == avg(s[Area(w, 2 * rr) + 2 * c], s[Area(w, 2 * rr) + 2 * c + 1],
                s[Area(w, 2 * rr) + w + 2 * c], s[Area(w, 2 * rr) + w + 2 * c + 1])
  {
    if rr + 1 == k {
      AreaPairs(w, rr);
      HalvedRowAt(avg, s, w, rr, c);
    } else {
      AreaMono(w, 2 * (k - 1), 2 * k);
      HalvedAt(avg, s, w, k - 1, rr, c);
      HalvedPrefix(avg, s, w, k, Area(w / 2, rr) + c);
    }
  }

  /** Output rows already written are kept when one more row is added. */
  lemma {:induction false} HalvedPrefix(avg: Average, s: seq<bv32>, w: nat, k: nat, i: nat)
    requires 0 < k && Area(w, 2 * k) <= |s| && i < Area(w / 2, k - 1)
    ensures i < Area(w / 2, k)
    ensures Halved(avg, s, w, k)[i] == Halved(avg, s, w, k - 1)[i]
  {
    HalvedLast(avg, s, w, k);
  }

  /** k + 1 row pairs are k row pairs and two more rows. */
  lemma {:induction false} AreaPairs(w: nat, k: nat)
    ensures Area(w, 2 * (k + 1)) == Area(w, 2 * k) + 2 * w
  {
    AreaTwoRows(w, 2 * k);
    assert 2 * (k + 1) == 2 * k + 2;
  }

  /** average2Rows, scalar branch: writes the halved row of the 2n pixels at
      `row1` and the 2n pixels at `row2` of src into the n pixels at `out` of
      dst, and nothing else. */
  method Average2Rows(avg: Average, src: seq<bv32>, row1: nat, row2: nat, dst: array<bv32>, out: nat, n: nat)
    requires row1 + 2 * n <= |src| && row2 + 2 * n <= |src| && out + n <= dst.Length
    modifies dst
    ensures dst[..] == Splice(old(dst[..]), out, HalfRow(avg, src, row1, row2, n))
  {
    ghost var row := HalfRow(avg, src, row1, row2, n);
    var x := 0;
    while x < n
      invariant 0 <= x <= n
      invariant forall i | out <= i < out + x :: dst[i] == row[i - out]
      invariant forall i | 0 <= i < dst.Length && !(out <= i < out + x) :: dst[i] == old(dst[i])
    {
      dst[out + x] := avg(src[row1 + 2 * x], src[row1 + 2 * x + 1], src[row2 + 2 * x], src[row2 + 2 * x + 1]);
      x := x + 1;
    }
    SplicePointwise(dst[..], old(dst[..]), out, row);
  }

  /** The same one row on, with the row arithmetic spelled out. */
  lemma {:induction false} HalvedNext(avg: Average, s: seq<bv32>, w: nat, k: nat)
    requires Area(w, 2 * k) + 2 * w <= |s|
    ensures Area(w, 2 * (k + 1)) == Area(w, 2 * k) + 2 * w
    ensures Area(w / 2, k + 1) == Area(w / 2, k) + w / 2
    ensures Halved(avg, s, w, k + 1)
         == Halved(avg, s, w, k) + HalfRow(avg, s, Area(w, 2 * k), Area(w, 2 * k) + w, w / 2)
  {
    AreaPairs(w, k);
    AreaAdd(w / 2, k, 1);
    HalvedLast(avg, s, w, k + 1);
  }

  /** The first k output rows are the first k - 1 followed by the halving of
      source rows 2(k - 1) and 2(k - 1) + 1. */
  lemma {:induction false} HalvedLast(avg: Average, s: seq<bv32>, w: nat, k: nat)
    requires 0 < k && Area(w, 2 * k) <= |s|
    ensures Area(w, 2 * (k - 1)) + 2 * w <= |s|
    ensures Halved(avg, s, w, k)
         == Halved(avg, s, w, k - 1) + HalfRow(avg, s, Area(w, 2 * (k - 1)), Area(w, 2 * (k - 1)) + w, w / 2)
  {
    AreaTwoRows(w, 2 * (k - 1));
  }

  /** After k passes writing at `base` into a destination that held `orig`:
      the first k output rows are in place and everything else is as it was. */
  ghost predicate Progress(avg: Average, image: seq<bv32>, w: nat, k: nat, base: nat, cur: seq<bv32>, orig: seq<bv32>)
  {
    Area(w, 2 * k) <= |image| && base + Area(w / 2, k) <= |orig|
    && cur == Splice(orig, base, Halved(avg, image, w, k))
  }

  /** One pass of halveimage: writing the halved row of source rows 2k and
      2k + 1 right after the first k output rows gives k + 1 output rows. */
  lemma {:induction false} HalveStep(avg: Average, image: seq<bv32>, w: nat, k: nat, base: nat, inOff: nat, outOff: nat,
                                     before: seq<bv32>, after: seq<bv32>, orig: seq<bv32>)
    requires Progress(avg, image, w, k, base, before, orig)
    requires inOff == Area(w, 2 * k) && inOff + 2 * w <= |image|
    requires outOff == base + Area(w / 2, k) && outOff + w / 2 <= |orig|
    requires after == Splice(before, outOff, HalfRow(avg, image, inOff, inOff + w, w / 2))
    ensures Progress(avg, image, w, k + 1, base, after, orig)
  {
    HalvedNext(avg, image, w, k);
    SpliceAfter(orig, before, after, base, Halved(avg, image, w, k),
                HalfRow(avg, image, Area(w, 2 * k), Area(w, 2 * k) + w, w / 2), Halved(avg, image, w, k + 1));
  }

  /** One iteration of the loop of halveimage: average2Rows on source rows 2k
      and 2k + 1 (at inOff) into output row k (at outOff). */
  method HalvePass(avg: Average, src: seq<bv32>, width: nat, inOff: nat, dst: array<bv32>, base: nat, outOff: nat,
                   ghost k: nat, ghost orig: seq<bv32>)
    requires inOff == Area(width, 2 * k) && inOff + 2 * width <= |src|
    requires outOff == base + Area(width / 2, k) && outOff + width / 2 <= dst.Length
    requires Progress(avg, src, width, k, base, dst[..], orig)
    modifies dst
    ensures Progress(avg, src, width, k + 1, base, dst[..], orig)
  {
    ghost var before := dst[..];
    Average2Rows(avg, src, inOff, inOff + width, dst, outOff, width / 2);
    HalveStep(avg, src, width, k, base, inOff, outOff, before, dst[..], orig);
  }

  /** The loop of halveimage, for any pixel average, writing the output from
      position `base` of dst: pass r averages source rows r and r + 1 into
      output row r / 2. The destination receives the halved source, and
      nothing else in it changes. */
  method HalveRows(avg: Average, src: seq<bv32>, width: nat, height: nat, dst: array<bv32>, base: nat)
    requires height % 2 == 0
    requires Area(width, height) <= |src| && base + Area(width / 2, height / 2) <= dst.Length
    modifies dst
    ensures dst[..] == Splice(old(dst[..]), base, Halved(avg, src, width, height / 2))
  {
    ghost var orig := dst[..];
    ghost var k := 0;
    var r := 0;
    var inOff: nat, outOff: nat := 0, base;
    assert orig[..base] + [] + orig[base..] == orig;
    while r < height
      invariant r == 2 * k <= height
      invariant inOff == Area(width, 2 * k) <= Area(width, height)
      invariant outOff == base + Area(width / 2, k) <= base + Area(width / 2, height / 2)
      invariant Progress(avg, src, width, k, base, dst[..], orig)
    {
      PassBounds(width, height, k);
      HalvePass(avg, src, width, inOff, dst, base, outOff, k, orig);
      r, inOff, outOff, k := r + 2, inOff + 2 * width, outOff + width / 2, k + 1;
    }
    assert k == height / 2;
  }

  /** halveimage(src, width, height, dst): every output pixel is avg4 of a 2x2
      block of the source (HalvedAt says which). The source must have an even
      number of rows: for an odd height the last pass reads the row past the
      end of the image. Area(w, h) is w * h (AreaIsProduct). The source is
      only read, so it is passed as the sequence of its pixels; the output
      starts at word `base` of the destination buffer (the RGB converters
      halve each level into the same buffer, right after the level). */
  method HalveImage(src: seq<bv32>, width: nat, height: nat, dst: array<bv32>, base: nat)
    requires height % 2 == 0
    requires Area(width, height) <= |src| && base + Area(width / 2, height / 2) <= dst.Length
    modifies dst
    ensures dst[..] == Splice(old(dst[..]), base, Halved(Avg4, src, width, height / 2))
  {
    HalveRows(Avg4, src, width, height, dst, base);
  }

  /** One pass of the loop moves two source rows and one output row on. */
  lemma {:induction false} PassBounds(w: nat, h: nat, k: nat)
    requires 2 * k < h && h % 2 == 0
    ensures Area(w, 2 * (k + 1)) == Area(w, 2 * k) + 2 * w <= Area(w, h)
    ensures Area(w / 2, k + 1) == Area(w / 2, k) + w / 2 <= Area(w / 2, h / 2)
  {
    assert 2 * (k + 1) == 2 * k + 2;
    AreaMono(w, 2 * (k + 1), h);
    AreaTwoRows(w, 2 * k);
    AreaMono(w / 2, k + 1, h / 2);
  }
}
