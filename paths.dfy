/** The extension rules of ddsfs.cpp and xpfs.cpp. A path that does not exist
    and ends in `.dds` (in any case) stands for an image with the same stem:
    getattr and open try the `.jpg` and then the `.webp` file, and readdir
    lists a `.dds` name beside every `.jpg` or `.webp` entry that has no real
    `.dds` file next to it. The filesystem is the set of paths for which
    `lstat`/`stat` succeed. */
module Paths {

  /** `strrchr(s, '.')`: no dot, or the position of the last one. */
  datatype Dot = NoDot | DotAt(k: nat)

  function LastDot(s: string): (d: Dot)
    ensures d.NoDot? <==> '.' !in s
    ensures d.DotAt? ==> d.k < |s| && s[d.k] == '.' && '.' !in s[d.k + 1..]
  {
    if |s| == 0 then NoDot
    else if s[|s| - 1] == '.' then DotAt(|s| - 1)
    else
      var d := LastDot(s[..|s| - 1]);
      assert s == s[..|s| - 1] + [s[|s| - 1]];
      if d.DotAt? then
        assert s[d.k + 1..] == s[..|s| - 1][d.k + 1..] + [s[|s| - 1]];
        d
      else d
  }

  /** The `tolower` that `strcasecmp` applies to each byte. */
  function Lower(c: char): char {
    if 'A' <= c <= 'Z' then (c as int + 32) as char else c
  }

  /** Each character through `tolower`. */
  function Lowered(s: string): (r: string)
    ensures |r| == |s|
  {
    seq(|s|, i requires 0 <= i < |s| => Lower(s[i]))
  }

  /** `strcasecmp(a, b) == 0`. */
  predicate SameIgnoringCase(a: string, b: string) {
    Lowered(a) == Lowered(b)
  }

  /** `ext = strrchr(s, '.')` is not NULL and `strcasecmp(ext, e) == 0`. */
  predicate ExtIs(s: string, e: string) {
    LastDot(s).DotAt? && SameIgnoringCase(s[LastDot(s).k..], e)
  }

  /** `strcpy(strrchr(s, '.'), e)`: the stem up to the last dot, then `e`. */
  function Swap(s: string, e: string): (r: string)
    requires LastDot(s).DotAt?
    ensures |r| == LastDot(s).k + |e|
    ensures r[..LastDot(s).k] == s[..LastDot(s).k] && r[LastDot(s).k..] == e
  {
    s[..LastDot(s).k] + e
  }

  /** The three extensions the rules write: a dot, then no other dot. */
  predicate Suffix(e: string) {
    |e| > 0 && e[0] == '.' && '.' !in e[1..]
  }

  lemma {:induction false} Suffixes()
    ensures Suffix(".jpg") && Suffix(".webp") && Suffix(".dds") && Suffix(".png")
  {
    assert ".jpg"[1..] == "jpg";
    assert ".webp"[1..] == "webp";
    assert ".dds"[1..] == "dds";
    assert ".png"[1..] == "png";
  }

  /** Characters without a dot after the last dot leave it where it is. */
  lemma {:induction false} LastDotAppendNoDot(a: string, b: string)
    requires '.' !in b
    ensures LastDot(a + b) == LastDot(a)
    decreases |b|
  {
    if |b| > 0 {
      var s := a + b;
      assert s[|s| - 1] == b[|b| - 1];
      assert s[..|s| - 1] == a + b[..|b| - 1];
      LastDotAppendNoDot(a, b[..|b| - 1]);
    } else {
      assert a + b == a;
    }
  }

  /** Appending a suffix puts the last dot at the suffix's own dot. */
  lemma {:induction false} LastDotOfSuffixed(stem: string, e: string)
    requires Suffix(e)
    ensures LastDot(stem + e) == DotAt(|stem|)
  {
    assert stem + e == (stem + [e[0]]) + e[1..];
    LastDotAppendNoDot(stem + [e[0]], e[1..]);
  }

  /** A path ending in a suffix: its last dot is the suffix's, swapping
      replaces the suffix, and its extension is the suffix. */
  lemma {:induction false} Suffixed(stem: string, e: string, e2: string)
    requires Suffix(e)
    ensures LastDot(stem + e) == DotAt(|stem|)
    ensures Swap(stem + e, e2) == stem + e2
    ensures ExtIs(stem + e, e2) <==> SameIgnoringCase(e, e2)
  {
    LastDotOfSuffixed(stem, e);
    assert (stem + e)[..|stem|] == stem && (stem + e)[|stem|..] == e;
  }

  /** Swapping extensions keeps the stem: the swapped path has the new
      extension, and swapping it again is swapping the original once. */
  lemma {:induction false} SwapTwice(s: string, e1: string, e2: string)
    requires LastDot(s).DotAt? && Suffix(e1)
    ensures LastDot(Swap(s, e1)) == LastDot(s)
    ensures ExtIs(Swap(s, e1), e1)
    ensures Swap(Swap(s, e1), e2) == Swap(s, e2)
  {
    var k := LastDot(s).k;
    Suffixed(s[..k], e1, e2);
    Suffixed(s[..k], e1, e1);
  }

  /** The result of the extension swap in getattr and open, once the path
      itself is missing: `Alternate` is the first of the `.jpg` and `.webp`
      paths that exists; `Errno(p)` returns `-errno` as set by the failed
      `lstat` (or `stat`) of `p`; `NoEnt` is open's explicit `-ENOENT`. */
  datatype Resolution = Exists | Alternate(src: string) | Errno(of: string) | NoEnt

  /** The alternates of a missing `.dds` path, in the order they are tried. */
  function Alternates(p: string): (r: seq<string>)
    requires LastDot(p).DotAt?
    ensures |r| == 2 && r[0] == Swap(p, ".jpg") && r[1] == Swap(p, ".webp")
  {
    [Swap(p, ".jpg"), Swap(p, ".webp")]
  }

  /** The path part of `ddsfs_getattr`. */
  function DdsfsGetattr(fs: set<string>, p: string): (r: Resolution)
    ensures r.Exists? <==> p in fs
    ensures !r.NoEnt?
    ensures r.Alternate? <==> p !in fs && ExtIs(p, ".dds") && (Alternates(p)[0] in fs || Alternates(p)[1] in fs)
    ensures r.Alternate? ==> r.src == if Alternates(p)[0] in fs then Alternates(p)[0] else Alternates(p)[1]
    ensures r.Errno? && ExtIs(p, ".dds") ==> r.of == Alternates(p)[1]
    ensures r.Errno? && !ExtIs(p, ".dds") ==> r.of == p
  {
    if p in fs then Exists
    else if !ExtIs(p, ".dds") then Errno(p)
    else if Swap(p, ".jpg") in fs then Alternate(Swap(p, ".jpg"))
    else if Swap(p, ".webp") in fs then Alternate(Swap(p, ".webp"))
    else Errno(Swap(p, ".webp"))
  }

  /** The path part of `ddsfs_open`: the same swap, except that a `.dds`
      path with neither alternate gives `-ENOENT`. */
  function DdsfsOpenSource(fs: set<string>, p: string): (r: Resolution)
    ensures r.Exists? <==> p in fs
    ensures r.Alternate? <==> p !in fs && ExtIs(p, ".dds") && (Alternates(p)[0] in fs || Alternates(p)[1] in fs)
    ensures r.Alternate? ==> r.src == if Alternates(p)[0] in fs then Alternates(p)[0] else Alternates(p)[1]
    ensures r.NoEnt? <==> p !in fs && ExtIs(p, ".dds") && Alternates(p)[0] !in fs && Alternates(p)[1] !in fs
    ensures r.Errno? ==> r.of == p
  {
    if p in fs then Exists
    else if !ExtIs(p, ".dds") then Errno(p)
    else if Swap(p, ".jpg") in fs then Alternate(Swap(p, ".jpg"))
    else if Swap(p, ".webp") in fs then Alternate(Swap(p, ".webp"))
    else NoEnt
  }

  /** Getattr and open agree on which image stands for a missing `.dds`. */
  lemma {:induction false} GetattrAgreesWithOpen(fs: set<string>, p: string)
    ensures DdsfsGetattr(fs, p).Alternate? <==> DdsfsOpenSource(fs, p).Alternate?
    ensures DdsfsGetattr(fs, p).Alternate? ==> DdsfsGetattr(fs, p) == DdsfsOpenSource(fs, p)
  {
  }

  /** One directory entry as readdir reports it: its name and, for a
      synthesized `.dds`, the remembered size (-1 when none). */
  datatype Listed = Listed(name: string, size: int)

  /** What `ddsfs_readdir` adds for entry `name` of directory `dir`: the entry
      itself, then, for a `.jpg` or `.webp` entry whose `.dds` twin does not
      exist, the twin with the size remembered under its path. */
  function DdsfsListedFor(fs: set<string>, sizes: map<string, int>, dir: string, name: string): (r: seq<Listed>)
    ensures 1 <= |r| <= 2 && r[0] == Listed(name, -1)
    ensures |r| == 2 <==> (ExtIs(name, ".jpg") || ExtIs(name, ".webp")) && dir + "/" + Swap(name, ".dds") !in fs
    ensures |r| == 2 ==> r[1].name == Swap(name, ".dds")
    ensures |r| == 2 ==> var t := dir + "/" + Swap(name, ".dds"); r[1].size == if t in sizes then sizes[t] else -1
  {
    if ExtIs(name, ".jpg") || ExtIs(name, ".webp") then
      var twin := Swap(name, ".dds");
      var testpath := dir + "/" + twin;
      if testpath !in fs then [Listed(name, -1), Listed(twin, if testpath in sizes then sizes[testpath] else -1)]
      else [Listed(name, -1)]
    else [Listed(name, -1)]
  }

  /** Everything `ddsfs_readdir` lists for the entries `names`, in order. */
  function DdsfsListing(fs: set<string>, sizes: map<string, int>, dir: string, names: seq<string>): (r: seq<Listed>)

    decreases |names|
  {
    if |names| == 0 then []
    else DdsfsListing(fs, sizes, dir, names[..|names| - 1]) + DdsfsListedFor(fs, sizes, dir, names[|names| - 1])
  }

  /** Every entry of the directory is listed under its own name. */
  lemma {:induction false} ListingHasEntries(fs: set<string>, sizes: map<string, int>, dir: string, names: seq<string>)
    ensures forall n :: n in names ==> Listed(n, -1) in DdsfsListing(fs, sizes, dir, names)
    decreases |names|
  {
    if |names| > 0 {
      var init, last := names[..|names| - 1], names[|names| - 1];
      ListingHasEntries(fs, sizes, dir, init);
      var r := DdsfsListing(fs, sizes, dir, names);
      assert r == DdsfsListing(fs, sizes, dir, init) + DdsfsListedFor(fs, sizes, dir, last);
      forall n | n in names ensures Listed(n, -1) in r {
        if n != last {
          assert n in init by {
            var i :| 0 <= i < |names| && names[i] == n;
            assert i < |names| - 1 && init[i] == n;
          }
        } else {
          assert r[|r| - |DdsfsListedFor(fs, sizes, dir, last)|] == Listed(last, -1);
        }
      }
    }
  }

  /** The loop of `ddsfs_readdir` over the directory's entries (the `filler`
      buffer never fills). */
  method DdsfsReaddir(fs: set<string>, sizes: map<string, int>, dir: string, names: seq<string>)
    returns (listed: seq<Listed>)
    ensures listed == DdsfsListing(fs, sizes, dir, names)
  {
    listed := [];
    var i := 0;
    while i < |names|
      invariant 0 <= i <= |names|
      invariant listed == DdsfsListing(fs, sizes, dir, names[..i])
    {
      assert names[..i + 1][..i] == names[..i];
      ghost var before := listed;
      ghost var entry := DdsfsListedFor(fs, sizes, dir, names[i]);
      assert DdsfsListing(fs, sizes, dir, names[..i + 1]) == before + entry;
      var name := names[i];
      listed := listed + [Listed(name, -1)];
      var lowerJpg, lowerWebp := ExtIs(name, ".jpg"), ExtIs(name, ".webp");
      if lowerJpg || lowerWebp {
        var twin := Swap(name, ".dds");
        var testpath := dir + "/" + twin;
        if testpath !in fs {
          var size := if testpath in sizes then sizes[testpath] else -1;
          assert entry == [Listed(name, -1), Listed(twin, size)];
          listed := listed + [Listed(twin, size)];
        } else {
          assert entry == [Listed(name, -1)];
        }
      } else {
        assert entry == [Listed(name, -1)];
      }
      assert listed == before + entry;
      i := i + 1;
    }
    assert names[..|names|] == names;
  }

  /** A name readdir synthesizes for a lower-case `.jpg` entry resolves, in
      getattr and open, to that entry, provided the directory path has no
      dot after its last slash issue: the test path and the looked-up path
      are the same string. */
  lemma {:induction false} ListedJpgResolves(fs: set<string>, dir: string, stem: string)
    requires dir + "/" + stem + ".jpg" in fs && dir + "/" + stem + ".dds" !in fs
    ensures ExtIs(stem + ".jpg", ".jpg")
    ensures Swap(stem + ".jpg", ".dds") == stem + ".dds"
    ensures var p := dir + "/" + stem + ".dds";
      DdsfsGetattr(fs, p) == Alternate(dir + "/" + stem + ".jpg") && DdsfsOpenSource(fs, p) == Alternate(dir + "/" + stem + ".jpg")
  {
    Suffixes();
    Suffixed(stem, ".jpg", ".jpg");
    Suffixed(stem, ".jpg", ".dds");
    Suffixed(dir + "/" + stem, ".dds", ".dds");
    Suffixed(dir + "/" + stem, ".dds", ".jpg");
  }

  /** The match is case-insensitive only one way: readdir lists `a.dds` for
      an entry `a.JPG`, but getattr and open of `a.dds` try `a.jpg` in lower
      case, which does not exist, so the listed name cannot be opened. */
  lemma {:induction false} UpperCaseJpgListedButMissing(dir: string, stem: string)
    ensures var fs := {dir + "/" + stem + ".JPG"};
      && DdsfsListedFor(fs, map[], dir, stem + ".JPG") == [Listed(stem + ".JPG", -1), Listed(stem + ".dds", -1)]
      && DdsfsGetattr(fs, dir + "/" + stem + ".dds") == Errno(dir + "/" + stem + ".webp")
      && DdsfsOpenSource(fs, dir + "/" + stem + ".dds") == NoEnt
  {
    Suffixes();
    UpperCaseJpgListed(dir, stem);
    var prefix := dir + "/" + stem;
    Suffixed(prefix, ".dds", ".dds");
    Suffixed(prefix, ".dds", ".jpg");
    Suffixed(prefix, ".dds", ".webp");
    var fs := {prefix + ".JPG"};
    assert (prefix + ".jpg")[|prefix| + 1] == 'j' && (prefix + ".JPG")[|prefix| + 1] == 'J';
    assert |prefix + ".webp"| != |prefix + ".JPG"|;
    assert prefix + ".dds" !in fs && ExtIs(prefix + ".dds", ".dds");
    assert Swap(prefix + ".dds", ".jpg") !in fs && Swap(prefix + ".dds", ".webp") !in fs;
    assert dir + "/" + Swap(stem + ".JPG", ".dds") !in fs;
  }

  /** The listing half: `.JPG` counts as `.jpg`, and the twin is `.dds`. */
  lemma {:induction false} UpperCaseJpgListed(dir: string, stem: string)
    ensures ExtIs(stem + ".JPG", ".jpg") && Swap(stem + ".JPG", ".dds") == stem + ".dds"
    ensures dir + "/" + stem + ".dds" != dir + "/" + stem + ".JPG"
  {
    assert Suffix(".JPG") by { assert ".JPG"[1..] == "JPG"; }
    Suffixed(stem, ".JPG", ".jpg");
    Suffixed(stem, ".JPG", ".dds");
    assert Lowered(".JPG") == ".jpg" == Lowered(".jpg");
    var prefix := dir + "/" + stem;
    assert (prefix + ".dds")[|prefix| + 1] == 'd' && (prefix + ".JPG")[|prefix| + 1] == 'J';
  }

  // ---- xpfs.cpp ----

  /** The path part of `xpfs_getattr`: a missing `.dds` or `.png` path is
      looked up as the `.jpg` with the same stem. */
  function XpfsGetattr(fs: set<string>, p: string): (r: Resolution)
    ensures r.Exists? <==> p in fs
    ensures !r.NoEnt?
    ensures r.Alternate? <==> p !in fs && (ExtIs(p, ".dds") || ExtIs(p, ".png")) && Swap(p, ".jpg") in fs
    ensures r.Alternate? ==> r.src == Swap(p, ".jpg")
    ensures r.Errno? ==> r.of == if ExtIs(p, ".dds") || ExtIs(p, ".png") then Swap(p, ".jpg") else p
  {
    if p in fs then Exists
    else if !(ExtIs(p, ".dds") || ExtIs(p, ".png")) then Errno(p)
    else if Swap(p, ".jpg") in fs then Alternate(Swap(p, ".jpg"))
    else Errno(Swap(p, ".jpg"))
  }

  /** The path part of `xpfs_open`: only a missing `.dds` path is converted,
      from the `.jpg` with the same stem. */
  function XpfsOpenSource(fs: set<string>, p: string): (r: Resolution)
    ensures r.Exists? <==> p in fs
    ensures !r.NoEnt?
    ensures r.Alternate? <==> p !in fs && ExtIs(p, ".dds") && Swap(p, ".jpg") in fs
    ensures r.Alternate? ==> r.src == Swap(p, ".jpg")
    ensures r.Errno? ==> r.of == if ExtIs(p, ".dds") then Swap(p, ".jpg") else p
  {
    if p in fs then Exists
    else if !ExtIs(p, ".dds") then Errno(p)
    else if Swap(p, ".jpg") in fs then Alternate(Swap(p, ".jpg"))
    else Errno(Swap(p, ".jpg"))
  }

  /** A `.png` path reports the `.jpg`'s attributes but cannot be opened. */
  lemma {:induction false} XpfsPngNotOpened(fs: set<string>, stem: string)
    requires stem + ".png" !in fs && stem + ".jpg" in fs
    ensures XpfsGetattr(fs, stem + ".png") == Alternate(stem + ".jpg")
    ensures XpfsOpenSource(fs, stem + ".png") == Errno(stem + ".png")
  {
    Suffixes();
    var p := stem + ".png";
    LastDotOfSuffixed(stem, ".png");
    assert p[|stem|..] == ".png" && p[..|stem|] == stem;
    assert SameIgnoringCase(".png", ".png");
    assert Lowered(".png")[1] != Lowered(".dds")[1];
  }

  /** What `xpfs_readdir` adds for entry `name`: the entry, then its `.dds`
      twin for a `.jpg` entry whose twin does not exist. */
  function XpfsListedFor(fs: set<string>, dir: string, name: string): (r: seq<string>)
    ensures 1 <= |r| <= 2 && r[0] == name
    ensures |r| == 2 <==> ExtIs(name, ".jpg") && dir + "/" + Swap(name, ".dds") !in fs
    ensures |r| == 2 ==> r[1] == Swap(name, ".dds")
  {
    if ExtIs(name, ".jpg") && dir + "/" + Swap(name, ".dds") !in fs then [name, Swap(name, ".dds")] else [name]
  }

  function XpfsListing(fs: set<string>, dir: string, names: seq<string>): (r: seq<string>)

    decreases |names|
  {
    if |names| == 0 then [] else XpfsListing(fs, dir, names[..|names| - 1]) + XpfsListedFor(fs, dir, names[|names| - 1])
  }

  /** The loop of `xpfs_readdir`. */
  method XpfsReaddir(fs: set<string>, dir: string, names: seq<string>) returns (listed: seq<string>)
    ensures listed == XpfsListing(fs, dir, names)
  {
    listed := [];
    var i := 0;
    while i < |names|
      invariant 0 <= i <= |names|
      invariant listed == XpfsListing(fs, dir, names[..i])
    {
      assert names[..i + 1][..i] == names[..i];
      var name := names[i];
      listed := listed + [name];
      if ExtIs(name, ".jpg") {
        var twin := Swap(name, ".dds");
        if dir + "/" + twin !in fs {
          listed := listed + [twin];
        }
      }
      i := i + 1;
    }
    assert names[..|names|] == names;
  }
}
