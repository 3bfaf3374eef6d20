/** The two ways the converters emit a mip chain after level 0: the DXT
    converters halve into a fresh pixel buffer and compress each level onto
    the output, the RGB converters halve each level in place, right after the
    previous one in the output buffer. Both stop once an edge is no longer
    above the threshold t. */
module Mipmaps {
  import opened Arith
  import opened PixelAverage
  import opened Halve
  import opened MipChain
  import opened Splicing

  /** A DXT block compressor from libdxt (CompressImageDXT1 or
      CompressImageDXT5): the bytes it emits for a w x h image. */
  type Compressor = (seq<bv32>, nat, nat) -> seq<bv8>

  /** The compressor emits exactly the bytes the size loop budgets per level. */
  ghost predicate Exact(compress: Compressor, e: Encoding) {
    forall px, w, h :: |compress(px, w, h)| == LevelBytes(e, w, h)
  }

  /** The words of a level chain that starts with a w x h level. */
  function ChainWords(t: nat, w: nat, h: nat): nat
    decreases w
  {
    Area(w, h) + (if w > t && h > t then ChainWords(t, w / 2, h / 2) else 0)
  }

  /** The next level of a w x h level of even height. */
  function Next(avg: Average, px: seq<bv32>, w: nat, h: nat): (r: seq<bv32>)
    requires |px| == Area(w, h) && h % 2 == 0
    ensures |r| == Area(w / 2, h / 2)
  {
    assert 2 * (h / 2) == h;
    Halved(avg, px, w, h / 2)
  }

  /** The pixels of every level, level 0 first, each the halving of the one
      before, down to the first level with an edge not above t. */
  function RgbChain(avg: Average, t: nat, px: seq<bv32>, w: nat, h: nat): (r: seq<bv32>)
    requires |px| == Area(w, h) && EvenChain(t, w, h)
    ensures |r| == ChainWords(t, w, h)
    ensures r[..Area(w, h)] == px
    decreases w
  {
    px + (if w > t && h > t then RgbChain(avg, t, Next(avg, px, w, h), w / 2, h / 2) else [])
  }

  /** The levels after level 0 of RgbChain. */
  function RgbTail(avg: Average, t: nat, px: seq<bv32>, w: nat, h: nat): seq<bv32>
    requires |px| == Area(w, h) && EvenChain(t, w, h)
  {
    if w > t && h > t then RgbChain(avg, t, Next(avg, px, w, h), w / 2, h / 2) else []
  }

  /** The compressed bytes of every level, level 0 first. */
  function DxtChain(compress: Compressor, avg: Average, t: nat, px: seq<bv32>, w: nat, h: nat): seq<bv8>
    requires |px| == Area(w, h) && EvenChain(t, w, h)
    decreases w
  {
    compress(px, w, h) + DxtTail(compress, avg, t, px, w, h)
  }

  /** The compressed bytes of the levels after level 0. */
  function DxtTail(compress: Compressor, avg: Average, t: nat, px: seq<bv32>, w: nat, h: nat): seq<bv8>
    requires |px| == Area(w, h) && EvenChain(t, w, h)
    decreases w, 0
  {
    if w > t && h > t then DxtChain(compress, avg, t, Next(avg, px, w, h), w / 2, h / 2) else []
  }

  /** A 32-bit-pixel chain takes the bytes the emission loop writes. */
  lemma {:induction false} ChainBytes(t: nat, w: nat, h: nat)
    ensures 4 * ChainWords(t, w, h) == Written(t, Rgba, w, h)
    decreases w
  {
    if w > t && h > t {
      ChainBytes(t, w / 2, h / 2);
    }
  }

  /** With an exact compressor the DXT chain takes the bytes the emission
      loop writes. */
  lemma {:induction false} DxtChainBytes(compress: Compressor, avg: Average, e: Encoding, t: nat, px: seq<bv32>, w: nat, h: nat)
    requires Exact(compress, e)
    requires |px| == Area(w, h) && EvenChain(t, w, h)
    ensures |DxtChain(compress, avg, t, px, w, h)| == Written(t, e, w, h)
    decreases w
  {
    assert |compress(px, w, h)| == LevelBytes(e, w, h);
    if w > t && h > t {
      DxtChainBytes(compress, avg, e, t, Next(avg, px, w, h), w / 2, h / 2);
    }
  }

  /** Level 0 compressed, then, when `more` holds, the loop
        while (width > t && height > t) {
          halveimage(rgba, width, height, nextmip); width >>= 1; height >>= 1;
          rgba = nextmip; compress(rgba, dstpos, width, height); dstpos += bytes; }
      returning the bytes appended after the header. */
  method EmitDxt(compress: Compressor, avg: Average, t: nat, px: seq<bv32>, width: nat, height: nat, more: bool)
    returns (out: seq<bv8>)
    requires |px| == Area(width, height) && EvenChain(t, width, height)
    ensures out == if more then DxtChain(compress, avg, t, px, width, height) else compress(px, width, height)
  {
    var rgba := px;
    var w: nat, h: nat := width, height;
    out := compress(rgba, w, h);
    if !more {
      return;
    }
    while w > t && h > t
      invariant |rgba| == Area(w, h) && EvenChain(t, w, h)
      invariant out + DxtTail(compress, avg, t, rgba, w, h) == DxtChain(compress, avg, t, px, width, height)
      decreases w
    {
      ghost var prev, pw, ph := rgba, w, h;
      var nextmip := new bv32[Area(w / 2, h / 2)];
      assert 2 * (h / 2) == h;
      ghost var blank := nextmip[..];
      HalveRows(avg, rgba, w, h, nextmip, 0);
      SpliceWhole(blank, Next(avg, prev, pw, ph));
      rgba, w, h := nextmip[..], w / 2, h / 2;
      assert DxtTail(compress, avg, t, prev, pw, ph) == compress(rgba, w, h) + DxtTail(compress, avg, t, rgba, w, h);
      out := out + compress(rgba, w, h);
    }
  }

  /** Past a level above t, the chain goes on with the halving of that level. */
  lemma {:induction false} TailNext(avg: Average, t: nat, lvl: seq<bv32>, w: nat, h: nat)
    requires |lvl| == Area(w, h) && EvenChain(t, w, h) && w > t && h > t
    ensures h % 2 == 0 && EvenChain(t, w / 2, h / 2)
    ensures RgbTail(avg, t, lvl, w, h) == Next(avg, lvl, w, h) + RgbTail(avg, t, Next(avg, lvl, w, h), w / 2, h / 2)
  {
  }

  /** The in-place halving loop after some passes, over a buffer that held
      `orig` with level 0 (px0, width x height) at `start`: the buffer holds
      the chain so far, `prev + lvl`, from `start`, and nothing else has
      changed; its last level, `lvl`, is w x h, and the levels after it
      complete the chain. */
  ghost predicate InPlace(avg: Average, t: nat, px0: seq<bv32>, width: nat, height: nat, start: nat,
                          cur: seq<bv32>, orig: seq<bv32>, w: nat, h: nat, prev: seq<bv32>, lvl: seq<bv32>)
  {
    |px0| == Area(width, height) && EvenChain(t, width, height)
    && |lvl| == Area(w, h) && EvenChain(t, w, h)
    && prev + lvl + RgbTail(avg, t, lvl, w, h) == RgbChain(avg, t, px0, width, height)
    && start + ChainWords(t, width, height) <= |orig|
    && cur == Splice(orig, start, prev + lvl)
  }

  /** The chain so far, extended by the level after `lvl`, still completes
      to the whole chain. */
  lemma {:induction false} ChainAfter(avg: Average, t: nat, px0: seq<bv32>, width: nat, height: nat,
                                      w: nat, h: nat, prev: seq<bv32>, lvl: seq<bv32>)
    requires |px0| == Area(width, height) && EvenChain(t, width, height)
    requires |lvl| == Area(w, h) && EvenChain(t, w, h) && w > t && h > t
    requires prev + lvl + RgbTail(avg, t, lvl, w, h) == RgbChain(avg, t, px0, width, height)
    ensures h % 2 == 0 && EvenChain(t, w / 2, h / 2)
    ensures prev + lvl + Next(avg, lvl, w, h) + RgbTail(avg, t, Next(avg, lvl, w, h), w / 2, h / 2)
         == RgbChain(avg, t, px0, width, height)
  {
    TailNext(avg, t, lvl, w, h);
    Associative(prev + lvl, Next(avg, lvl, w, h), RgbTail(avg, t, Next(avg, lvl, w, h), w / 2, h / 2));
  }

  /** One pass of the in-place loop: writing the level after `lvl` right
      after the chain so far moves the loop state on one level. */
  lemma {:induction false} InPlaceStep(avg: Average, t: nat, px0: seq<bv32>, width: nat, height: nat, start: nat,
                                       before: seq<bv32>, after: seq<bv32>, orig: seq<bv32>,
                                       w: nat, h: nat, prev: seq<bv32>, lvl: seq<bv32>, nxt: seq<bv32>)
    requires InPlace(avg, t, px0, width, height, start, before, orig, w, h, prev, lvl)
    requires w > t && h > t && h % 2 == 0 && nxt == Next(avg, lvl, w, h)
    requires start + |prev + lvl| + |nxt| <= |orig|
    requires after == Splice(before, start + |prev + lvl|, nxt)
    ensures InPlace(avg, t, px0, width, height, start, after, orig, w / 2, h / 2, prev + lvl, nxt)
  {
    ChainAfter(avg, t, px0, width, height, w, h, prev, lvl);
    SpliceAfter(orig, before, after, start, prev + lvl, nxt, prev + lvl + nxt);
  }

  /** The current level of the in-place loop sits right before the first
      word past the chain so far, and the next level fits after it. */
  lemma {:induction false} CurrentLevel(avg: Average, t: nat, px0: seq<bv32>, width: nat, height: nat, start: nat,
                                        cur: seq<bv32>, orig: seq<bv32>, w: nat, h: nat, prev: seq<bv32>, lvl: seq<bv32>)
    requires InPlace(avg, t, px0, width, height, start, cur, orig, w, h, prev, lvl)
    requires w > t && h > t
    ensures start + |prev + lvl| + Area(w / 2, h / 2) <= |cur|
    ensures cur[start + |prev| .. start + |prev + lvl|] == lvl
  {
    TailNext(avg, t, lvl, w, h);
    assert |prev + lvl| + Area(w / 2, h / 2) <= |RgbChain(avg, t, px0, width, height)|;
    SpliceParts(orig, start, prev + lvl);
    assert cur[start + |prev| .. start + |prev + lvl|] == cur[start .. start + |prev + lvl|][|prev|..];
  }

  /** One pass of the in-place loop: the level of w x h words right before
      `pos` is halved into the words from `pos`. */
  method HalveLevel(avg: Average, buf: array<bv32>, start: nat, t: nat, width: nat, height: nat,
                    w: nat, h: nat, pos: nat,
                    ghost px0: seq<bv32>, ghost orig: seq<bv32>, ghost prev: seq<bv32>, ghost lvl: seq<bv32>)
    requires InPlace(avg, t, px0, width, height, start, buf[..], orig, w, h, prev, lvl)
    requires w > t && h > t && pos == start + |prev + lvl|
    modifies buf
    ensures h % 2 == 0 && |lvl| == Area(w, h)
    ensures InPlace(avg, t, px0, width, height, start, buf[..], orig, w / 2, h / 2, prev + lvl, Next(avg, lvl, w, h))
  {
    CurrentLevel(avg, t, px0, width, height, start, buf[..], orig, w, h, prev, lvl);
    TailNext(avg, t, lvl, w, h);
    ghost var before := buf[..];
    var level := buf[pos - Area(w, h)..pos];
    assert level == lvl;
    HalveRows(avg, level, w, h, buf, pos);
    InPlaceStep(avg, t, px0, width, height, start, before, buf[..], orig, w, h, prev, lvl, Next(avg, lvl, w, h));
  }

  /** The loop of the RGB converters, over the output buffer:
        while (width > t && height > t) {
          halveimage(dstpos - bytes, width, height, dstpos);
          width >>= 1; height >>= 1; bytes = width * height * 4; dstpos += bytes; }
      Level 0 sits at `start`; each level is halved into the words right after
      it. The buffer ends up holding the whole chain from `start`, and nothing
      else in it changes. */
  method HalveInPlace(avg: Average, buf: array<bv32>, start: nat, t: nat, width: nat, height: nat) returns (end: nat)
    requires EvenChain(t, width, height)
    requires start + ChainWords(t, width, height) <= buf.Length
    modifies buf
    ensures end == start + ChainWords(t, width, height)
    ensures buf[..] == Splice(old(buf[..]), start, RgbChain(avg, t, old(buf[start .. start + Area(width, height)]), width, height))
  {
    ghost var orig := buf[..];
    ghost var px0 := buf[start .. start + Area(width, height)];
    ghost var prev, lvl := [], px0;
    var w: nat, h: nat := width, height;
    var pos: nat := start + Area(w, h);
    assert buf[..] == Splice(orig, start, [] + px0) by {
      SplicePointwise(buf[..], orig, start, [] + px0);
    }
    while w > t && h > t
      invariant InPlace(avg, t, px0, width, height, start, buf[..], orig, w, h, prev, lvl)
      invariant pos == start + |prev + lvl|
      decreases w
    {
      HalveLevel(avg, buf, start, t, width, height, w, h, pos, px0, orig, prev, lvl);
      prev, lvl := prev + lvl, Next(avg, lvl, w, h);
      w, h := w / 2, h / 2;
      pos := pos + Area(w, h);
    }
    InPlaceDone(avg, t, px0, width, height, start, buf[..], orig, w, h, prev, lvl);
    end := pos;
  }

  /** Once the last level is reached, the buffer holds the whole chain. */
  lemma {:induction false} InPlaceDone(avg: Average, t: nat, px0: seq<bv32>, width: nat, height: nat, start: nat,
                                       cur: seq<bv32>, orig: seq<bv32>, w: nat, h: nat, prev: seq<bv32>, lvl: seq<bv32>)
    requires InPlace(avg, t, px0, width, height, start, cur, orig, w, h, prev, lvl)
    requires !(w > t && h > t)
    ensures |prev + lvl| == ChainWords(t, width, height)
    ensures cur == Splice(orig, start, RgbChain(avg, t, px0, width, height))
  {
    assert prev + lvl + [] == prev + lvl;
  }
}
