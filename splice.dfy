/** Whole-buffer statements about writes into the middle of a buffer: the
    buffer after writing `x` at position `at`, everything else unchanged. */
module Splicing {

  /** `o` with the |x| elements from position `at` replaced by x. */
  function Splice<T>(o: seq<T>, at: nat, x: seq<T>): (r: seq<T>)
    requires at + |x| <= |o|
    ensures |r| == |o|
  {
    o[..at] + x + o[at + |x|..]
  }

  /** What a splice holds: x at `at`, and the old elements around it. */
  lemma {:induction false} SpliceParts<T>(o: seq<T>, at: nat, x: seq<T>)
    requires at + |x| <= |o|
    ensures Splice(o, at, x)[at .. at + |x|] == x
    ensures Splice(o, at, x)[..at] == o[..at]
    ensures Splice(o, at, x)[at + |x|..] == o[at + |x|..]
  {
    var r := Splice(o, at, x);
    assert r[at .. at + |x|] == x by {
      forall i | 0 <= i < |x| ensures r[at .. at + |x|][i] == x[i] {
        assert r[at + i] == x[i];
      }
    }
    assert r[..at] == o[..at];
    assert r[at + |x|..] == o[at + |x|..];
  }

  /** A buffer that agrees with `o` outside [at, at + |x|) and with x inside
      it is the splice. */
  lemma {:induction false} SplicePointwise<T>(cur: seq<T>, o: seq<T>, at: nat, x: seq<T>)
    requires at + |x| <= |o| == |cur|
    requires forall i | 0 <= i < at :: cur[i] == o[i]
    requires forall i | 0 <= i < |x| :: cur[at + i] == x[i]
    requires forall i | at + |x| <= i < |o| :: cur[i] == o[i]
    ensures cur == Splice(o, at, x)
  {
    var r := Splice(o, at, x);
    forall i | 0 <= i < |cur| ensures cur[i] == r[i] {
      if i < at {
      } else if i < at + |x| {
        assert cur[at + (i - at)] == x[i - at];
      }
    }
  }

  /** Writing y right after x is writing x + y. */
  lemma {:induction false} SpliceTwice<T>(o: seq<T>, at: nat, x: seq<T>, y: seq<T>)
    requires at + |x| + |y| <= |o|
    ensures Splice(Splice(o, at, x), at + |x|, y) == Splice(o, at, x + y)
  {
    var r, s := Splice(Splice(o, at, x), at + |x|, y), Splice(o, at, x + y);
    forall i | 0 <= i < |o| ensures r[i] == s[i] {
      if i < at {
      } else if i < at + |x| {
        assert r[i] == x[i - at] == (x + y)[i - at];
      } else if i < at + |x| + |y| {
        assert r[i] == y[i - at - |x|] == (x + y)[i - at];
      }
    }
  }

  /** Writing a whole buffer replaces it. */
  lemma {:induction false} SpliceWhole<T>(o: seq<T>, x: seq<T>)
    requires |x| == |o|
    ensures Splice(o, 0, x) == x
  {
    assert o[..0] + x + o[|x|..] == x;
  }

  /** Two consecutive writes, the second right after the first, make one
      write of their concatenation. */
  lemma {:induction false} SpliceAfter<T>(o: seq<T>, mid: seq<T>, r: seq<T>, at: nat, x: seq<T>, y: seq<T>, xy: seq<T>)
    requires at + |x| + |y| <= |o|
    requires mid == Splice(o, at, x) && r == Splice(mid, at + |x|, y) && xy == x + y
    ensures r == Splice(o, at, xy)
  {
    SpliceTwice(o, at, x, y);
  }

  /** Concatenation is associative. */
  lemma Associative<T>(a: seq<T>, b: seq<T>, c: seq<T>)
    ensures a + (b + c) == a + b + c
  {
  }
}
