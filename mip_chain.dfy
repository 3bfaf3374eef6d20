/** Mip-level arithmetic shared by the converters (jpg.cpp, webp.cpp,
    convert.cpp, xpfs.cpp): how many levels a size loop counts, how many
    bytes it budgets, and how many levels and bytes the emission loop writes.
    Image edges are non-negative C ints, so `x >> k` is x / 2^k (Shr). */
module MipChain {
  import opened DdsLayout
  import opened Arith

  /** The test of a size loop on the edges of level k: `(h >> k) >= min &&
      (w >> k) >= min` or `(h >> k) > min && (w >> k) > min`. */
  datatype Guard = AtLeast(min: nat) | Above(min: nat)

  predicate Passes(g: Guard, w: nat, h: nat) {
    match g
    case AtLeast(m) => w >= m && h >= m
    case Above(m) => w > m && h > m
  }

  /** The loop ends: `(x >> k) >= 0` holds forever, every other guard fails
      once the edges reach 0. */
  predicate Halts(g: Guard) {
    g.AtLeast? ==> g.min >= 1
  }

  /** x >> k for a non-negative x. */
  function Shr(x: nat, k: nat): (r: nat)
    ensures r <= x
  {
    if k == 0 then x else Shr(x, k - 1) / 2
  }

  /** Number of levels, counted from level 0 up to the first one that fails g. */
  function Levels(g: Guard, w: nat, h: nat): nat
    requires Halts(g)
    decreases w
  {
    if Passes(g, w, h) then 1 + Levels(g, w / 2, h / 2) else 0
  }

  /** How a level is stored: DXT1 blocks (half a byte per pixel), DXT5 blocks
      (one byte per pixel), or 32-bit pixels. */
  datatype Encoding = Dxt1 | Dxt5 | Rgba

  /** The bytes the converters budget for a w x h level, the C expressions
      `h * w / 2`, `h * w` and `h * w * 4` (Area(w, h) is w * h, AreaIsProduct). */
  function LevelBytes(e: Encoding, w: nat, h: nat): nat {
    match e
    case Dxt1 => Area(w, h) / 2
    case Dxt5 => Area(w, h)
    case Rgba => 4 * Area(w, h)
  }

  /** The bytes a size loop adds to `totalsize`: one level per k that passes g. */
  function Budget(g: Guard, e: Encoding, w: nat, h: nat): nat
    requires Halts(g)
    decreases w
  {
    if Passes(g, w, h) then LevelBytes(e, w, h) + Budget(g, e, w / 2, h / 2) else 0
  }

  /** Shifting a halved edge by k is shifting the edge by k + 1. */
  lemma {:induction false} ShrHalf(x: nat, k: nat)
    ensures Shr(x / 2, k) == Shr(x, k + 1)
  {
    if k > 0 {
      ShrHalf(x, k - 1);
    }
  }

  /** The size loop of the converters:
        while (guard(height >> mips, width >> mips)) {
          totalsize += bytes(height >> mips, width >> mips); mips++; }
      starting from mips = 0 and totalsize = sizeof(DDS_HEADER). */
  method SizeLoop(g: Guard, e: Encoding, width: nat, height: nat) returns (mips: nat, totalsize: nat)
    requires Halts(g)
    ensures mips == Levels(g, width, height)
    ensures totalsize == HeaderSize + Budget(g, e, width, height)
  {
    mips, totalsize := 0, HeaderSize;
    while Passes(g, Shr(width, mips), Shr(height, mips))
      invariant Levels(g, width, height) == mips + Levels(g, Shr(width, mips), Shr(height, mips))
      invariant HeaderSize + Budget(g, e, width, height)
             == totalsize + Budget(g, e, Shr(width, mips), Shr(height, mips))
      decreases Shr(width, mips)
    {
      totalsize := totalsize + LevelBytes(e, Shr(width, mips), Shr(height, mips));
      mips := mips + 1;
    }
  }

  /** The counting loop of xpfs.cpp, without a byte budget:
        while (guard(height >> mips, width >> mips)) mips++; */
  method CountLoop(g: Guard, width: nat, height: nat) returns (mips: nat)
    requires Halts(g)
    ensures mips == Levels(g, width, height)
  {
    mips := 0;
    while Passes(g, Shr(width, mips), Shr(height, mips))
      invariant Levels(g, width, height) == mips + Levels(g, Shr(width, mips), Shr(height, mips))
      decreases Shr(width, mips)
    {
      mips := mips + 1;
    }
  }

  /** A level that fails g stays failing when halved (edges only shrink). */
  lemma {:induction false} FailsLater(g: Guard, w: nat, h: nat, k: nat)
    requires !Passes(g, w, h)
    ensures !Passes(g, Shr(w, k), Shr(h, k))
  {
    if k > 0 {
      FailsLater(g, w, h, k - 1);
    }
  }

  /** Levels counts exactly the k for which level k passes g: these are
      k = 0 .. Levels - 1. */
  lemma {:induction false} LevelsCount(g: Guard, w: nat, h: nat, k: nat)
    requires Halts(g)
    ensures k < Levels(g, w, h) <==> Passes(g, Shr(w, k), Shr(h, k))
    decreases w
  {
    if Passes(g, w, h) && k > 0 {
      LevelsCount(g, w / 2, h / 2, k - 1);
      ShrHalf(w, k - 1);
      ShrHalf(h, k - 1);
    } else if !Passes(g, w, h) {
      FailsLater(g, w, h, k);
    }
  }

  /** Number of levels the emission loop writes: level 0, then one more per
      pass of `while (width > t && height > t) { halve; width >>= 1; height >>= 1; }`. */
  function Emitted(t: nat, w: nat, h: nat): (n: nat)
    ensures n >= 1
    decreases w
  {
    if w > t && h > t then 1 + Emitted(t, w / 2, h / 2) else 1
  }

  /** Bytes the emission loop writes when every level has its budgeted size. */
  function Written(t: nat, e: Encoding, w: nat, h: nat): nat
    decreases w
  {
    LevelBytes(e, w, h) + (if w > t && h > t then Written(t, e, w / 2, h / 2) else 0)
  }

  /** Counting with `> t` misses the last level the emission loop writes. */
  lemma {:induction false} EmittedAbove(t: nat, w: nat, h: nat)
    ensures Emitted(t, w, h) == Levels(Above(t), w, h) + 1
    decreases w
  {
    if w > t && h > t {
      EmittedAbove(t, w / 2, h / 2);
    }
  }

  /** ... and budgeting with `> t` misses that level's bytes: the emission
      loop writes the budget plus the level at Levels(Above(t), w, h). */
  lemma {:induction false} WrittenAbove(t: nat, e: Encoding, w: nat, h: nat)
    ensures Written(t, e, w, h)
         == Budget(Above(t), e, w, h)
            + LevelBytes(e, Shr(w, Levels(Above(t), w, h)), Shr(h, Levels(Above(t), w, h)))
    decreases w
  {
    if w > t && h > t {
      var m := Levels(Above(t), w / 2, h / 2);
      WrittenAbove(t, e, w / 2, h / 2);
      ShrHalf(w, m);
      ShrHalf(h, m);
    }
  }

  /** For power-of-two edges with t a power of two, an edge above t is at
      least 2t, so `>= t` and `> t` lose no level between them. */
  lemma {:induction false} Pow2Step(x: nat, t: nat)
    requires IsPow2(x) && IsPow2(t) && x > t
    ensures x % 2 == 0 && IsPow2(x / 2) && x / 2 >= t
  {
    if t > 1 {
      Pow2Step(x / 2, t / 2);
    }
  }

  /** For power-of-two w, h >= t (t a power of two), counting with `>= t`
      gives exactly the levels the emission loop writes ... */
  lemma {:induction false} AtLeastLevels(t: nat, w: nat, h: nat)
    requires IsPow2(t) && IsPow2(w) && IsPow2(h) && w >= t && h >= t
    ensures Levels(AtLeast(t), w, h) == Emitted(t, w, h)
    decreases w
  {
    assert t >= 1;
    if w > t && h > t {
      Pow2Step(w, t);
      Pow2Step(h, t);
      AtLeastLevels(t, w / 2, h / 2);
    } else {
      assert Levels(AtLeast(t), w / 2, h / 2) == 0;
    }
  }

  /** ... and budgets exactly the bytes it writes. */
  lemma {:induction false} AtLeastBudget(t: nat, e: Encoding, w: nat, h: nat)
    requires IsPow2(t) && IsPow2(w) && IsPow2(h) && w >= t && h >= t
    ensures Budget(AtLeast(t), e, w, h) == Written(t, e, w, h)
    decreases w
  {
    if w > t && h > t {
      Pow2Step(w, t);
      Pow2Step(h, t);
      AtLeastBudget(t, e, w / 2, h / 2);
      assert Budget(AtLeast(t), e, w, h) == LevelBytes(e, w, h) + Budget(AtLeast(t), e, w / 2, h / 2);
    } else {
      LastBudget(t, e, w, h);
    }
  }

  /** The last level: it passes `>= t` but its halving does not. */
  lemma {:induction false} LastBudget(t: nat, e: Encoding, w: nat, h: nat)
    requires IsPow2(t) && w >= t && h >= t && !(w > t && h > t)
    ensures Budget(AtLeast(t), e, w, h) == Written(t, e, w, h) == LevelBytes(e, w, h)
  {
    assert t >= 1;
    assert Budget(AtLeast(t), e, w / 2, h / 2) == 0;
  }

  /** The halving loop only halves levels of even height: for an odd height
      halveimage reads the row past the end of the level. */
  predicate EvenChain(t: nat, w: nat, h: nat)
    decreases w
  {
    w > t && h > t ==> h % 2 == 0 && EvenChain(t, w / 2, h / 2)
  }

  /** Power-of-two edges halve evenly down to any threshold t >= 1. */
  lemma {:induction false} Pow2EvenChain(t: nat, w: nat, h: nat)
    requires t >= 1 && IsPow2(w) && IsPow2(h)
    ensures EvenChain(t, w, h)
    decreases w
  {
    if w > t && h > t {
      Pow2EvenChain(t, w / 2, h / 2);
    }
  }
}
