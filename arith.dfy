/** Image sizes. The number of pixels of a w x h image is built up row by row,
    so that proofs about image offsets stay linear; AreaIsProduct ties it to
    the product the C code computes. */
module Arith {

  /** The number of pixels in h rows of w pixels. */
  function Area(w: nat, h: nat): nat
  {
    if h == 0 then 0 else Area(w, h - 1) + w
  }

  lemma {:induction false} AreaIsProduct(w: nat, h: nat)
    ensures Area(w, h) == w * h
  {
    if h > 0 {
      AreaIsProduct(w, h - 1);
    }
  }

  /** The pixels of a + b rows are those of the first a rows followed by
      those of the next b. */
  lemma {:induction false} AreaAdd(w: nat, a: nat, b: nat)
    ensures Area(w, a + b) == Area(w, a) + Area(w, b)
    decreases b
  {
    if b > 0 {
      AreaAdd(w, a, b - 1);
    }
  }

  lemma {:induction false} AreaMono(w: nat, a: nat, b: nat)
    requires a <= b
    ensures Area(w, a) <= Area(w, b)
  {
    AreaAdd(w, a, b - a);
  }

  /** An image with no columns has no pixels. */
  lemma {:induction false} AreaOfEmptyRows(h: nat)
    ensures Area(0, h) == 0
  {
    if h > 0 {
      AreaOfEmptyRows(h - 1);
    }
  }
}
