/** The FUSE callbacks of ddsfs.cpp that synthesize `.dds` files:
    `ddsfs_getattr` and `ddsfs_open`, over the extension rules of `Paths`,
    the size memo of `SizeCache` and the handle cache of `DdsfsCache`.
    The mounted directory is a map from full path (`rwpath`, the base path
    followed by the FUSE path) to file contents; the image decoders and
    converters are parameters. */
module Ddsfs {
  import opened Wrappers
  import opened CacheCommon
  import Paths
  import SizeCache
  import DdsfsCache

  /** The mount options that matter here. */
  datatype Config = Config(compress: bool, cache: nat, size: bool)

  /** A decoded image header never has an edge of 2^31 or more. */
  type Edge = n: nat | n < 0x8000_0000

  datatype Dims = Dims(width: Edge, height: Edge, alpha: bool)

  /** `ddsfs_jpg_header`, `ddsfs_webp_header` and the four converters of
      jpg.cpp and webp.cpp, as functions of the file's bytes (and, for the
      converters, of `config.compress`). A converter's `None` is its -1.
      A converter's `Some` bytes stand for the first `len` bytes of `*dst`,
      the length that the cache entry and `sizecache_set` record. They are
      not every byte the converter writes: the two differ where
      `Webp.WebpDxtShortfall` and `Jpg.JpgDxt1Small` show a write past the
      buffer. Nothing here ties these parameters to `Jpg.JpgDxt1Of`,
      `Jpg.JpgRgbOf` or the webp functions; they are independent. */
  datatype Codecs = Codecs(
    jpgHeader: seq<bv8> -> Option<Dims>,
    webpHeader: seq<bv8> -> Option<Dims>,
    jpgConvert: (seq<bv8>, bool) -> Option<seq<bv8>>,
    webpConvert: (seq<bv8>, bool) -> Option<seq<bv8>>)

  /** What getattr reports: `-errno` left by the failed call on a path, or
      success with a file size. */
  datatype Attr = AttrErr(errnoOf: string) | Attr(size: int)

  /** The size getattr computes for a missing `.dds` whose image is `src`
      when the memo has none: the estimate from the header (JPEG has no
      alpha), or the header call's failure. */
  function Estimate(config: Config, codecs: Codecs, files: map<string, seq<bv8>>, src: string, webp: bool): (r: Option<int>)
    requires src in files
  {
    var d := if webp then codecs.webpHeader(files[src]) else codecs.jpgHeader(files[src]);
    if d.None? then None
    else Some(SizeCache.DdsSize(d.value.width, d.value.height, webp && d.value.alpha, config.compress))
  }

  /** `ddsfs_getattr` on `rw`. An existing path reports its own size. A
      missing `.dds` path with an image reports, in this order of
      preference, the size remembered under the IMAGE's path, the estimate
      (remembered under the image's path) when `config.size` is set, or the
      image's own size. */
  method Getattr(config: Config, codecs: Codecs, files: map<string, seq<bv8>>, memo: SizeCache.SizeMemo, rw: string)
    returns (r: Attr)
    modifies memo
    ensures var res := Paths.DdsfsGetattr(files.Keys, rw);
      && (res.Exists? ==> r == Attr(|files[rw]|) && memo.sizes == old(memo.sizes))
      && (res.Errno? ==> r == AttrErr(res.of) && memo.sizes == old(memo.sizes))
      && (res.Alternate? ==>
            var src, webp := res.src, Paths.Swap(rw, ".jpg") !in files;
            && (old(memo.Get(src)) != -1 ==> r == Attr(old(memo.Get(src))) && memo.sizes == old(memo.sizes))
            && (old(memo.Get(src)) == -1 && !config.size ==> r == Attr(|files[src]|) && memo.sizes == old(memo.sizes))
            && (old(memo.Get(src)) == -1 && config.size ==>
                  var e := Estimate(config, codecs, files, src, webp);
                  && (e.None? ==> r == AttrErr(src) && memo.sizes == old(memo.sizes))
                  && (e.Some? ==> r == Attr(e.value) && memo.sizes == old(memo.sizes)[src := e.value])))
    ensures r.Attr? && rw !in files ==> memo.Get(Paths.DdsfsGetattr(files.Keys, rw).src) in {-1, r.size}
  {
    var res := Paths.DdsfsGetattr(files.Keys, rw);
    match res {
      case Exists => return Attr(|files[rw]|);
      case Errno(p) => return AttrErr(p);
      case NoEnt => assert false; return AttrErr(rw);
      case Alternate(src) =>
        var webp := Paths.Swap(rw, ".jpg") !in files;
        var size := memo.Get(src);
        if size != -1 {
          return Attr(size);
        }
        if !config.size {
          return Attr(|files[src]|);
        }
        var e := Estimate(config, codecs, files, src, webp);
        if e.None? {
          return AttrErr(src);
        }
        memo.Set(src, e.value);
        r := Attr(e.value);
    }
  }

  /** What open hands back: the real file's descriptor (an existing path, or
      the `.dds` file just written under CACHE_DISK), a handle id of the
      memory cache, `-errno` left by the failed call on a path, or
      `-ENOENT` for a `.dds` path with no image. */
  datatype Opened = Direct | Handle(fd: int) | OpenErr(errnoOf: string) | NoEnt

  /** The disk the CACHE_DISK branch writes to: the mounted directory, and
      whether creating a file at a path succeeds. */
  class Disk {
    var files: map<string, seq<bv8>>
    const creatable: string -> bool

    constructor (initial: map<string, seq<bv8>>, creatable: string -> bool)
      ensures files == initial && this.creatable == creatable
    {
      files := initial;
      this.creatable := creatable;
    }

    /** The CACHE_DISK branch: create the `.dds` file, write the bytes,
        reopen it. */
    method Write(rw: string, dds: seq<bv8>) returns (r: Opened)
      modifies this
      ensures creatable(rw) ==> r == Direct && files == old(files)[rw := dds]
      ensures !creatable(rw) ==> r == OpenErr(rw) && files == old(files)
    {
      if !creatable(rw) {
        return OpenErr(rw);
      }
      files := files[rw := dds];
      r := Direct;
    }
  }

  /** The image bytes converted as open converts them. */
  function Converted(config: Config, codecs: Codecs, files: map<string, seq<bv8>>, src: string, webp: bool): (r: Option<seq<bv8>>)
    requires src in files
  {
    if webp then codecs.webpConvert(files[src], config.compress) else codecs.jpgConvert(files[src], config.compress)
  }

  /** The cache's state is the one given. */
  ghost predicate Same(cache: DdsfsCache.HandleCache, memcache: map<int, Id>, c: Cached, nextfd: int)
    reads cache
  {
    cache.memcache == memcache && cache.cache == c && cache.nextfd == nextfd
  }

  /** `ddsfs_open` on `rw` when the memory cache is in use (`config.cache`
      is not CACHE_DISK). A cached `.dds` is served before its image is even
      looked for; otherwise the image is converted and the bytes inserted,
      and, when this open's insert created the entry, their length is
      remembered under the `.dds` path. */
  method OpenCached(config: Config, codecs: Codecs, files: map<string, seq<bv8>>, cache: DdsfsCache.HandleCache,
                    memo: SizeCache.SizeMemo, rw: string) returns (r: Opened)
    requires cache.Valid() && cache.limit == config.cache && HasFree(cache.memcache)
    modifies cache, memo
    ensures cache.Valid()
    ensures rw in files ==> r == Direct && Same(cache, old(cache.memcache), old(cache.cache), old(cache.nextfd)) && memo.sizes == old(memo.sizes)
    ensures rw !in files && !Paths.ExtIs(rw, ".dds") ==> r == OpenErr(rw) && Same(cache, old(cache.memcache), old(cache.cache), old(cache.nextfd)) && memo.sizes == old(memo.sizes)
    ensures rw !in files && Paths.ExtIs(rw, ".dds") && rw in old(cache.cache.index) ==>
      && r.Handle? && r.fd !in old(cache.memcache) && InRange(r.fd)
      && cache.memcache == old(cache.memcache)[r.fd := old(cache.cache.index[rw])]
      && cache.cache == Hit(old(cache.cache), rw) && memo.sizes == old(memo.sizes)
    ensures rw !in files && Paths.ExtIs(rw, ".dds") && rw !in old(cache.cache.index) ==>
      var res := Paths.DdsfsOpenSource(files.Keys, rw);
      && (res.NoEnt? ==> r == NoEnt && Same(cache, old(cache.memcache), old(cache.cache), old(cache.nextfd)) && memo.sizes == old(memo.sizes))
      && (res.Alternate? ==>
            var c := Converted(config, codecs, files, res.src, res.src != Paths.Swap(rw, ".jpg"));
            && (c.None? ==> r == OpenErr(res.src) && Same(cache, old(cache.memcache), old(cache.cache), old(cache.nextfd)) && memo.sizes == old(memo.sizes))
            && (c.Some? ==>
                  && r.Handle? && r.fd !in old(cache.memcache) && InRange(r.fd)
                  && cache.memcache == old(cache.memcache)[r.fd := old(cache.alloc)]
                  && Some(cache.cache) == Inserted(old(cache.cache), rw, c.value, old(cache.alloc), cache.limit)
                  && memo.sizes == old(memo.sizes)[rw := |c.value|]))
  {
    if rw in files {
      return Direct;
    }
    if !Paths.ExtIs(rw, ".dds") {
      return OpenErr(rw);
    }
    var fd := cache.Lookup(rw);
    if fd != 0 {
      return Handle(fd);
    }
    var res := Paths.DdsfsOpenSource(files.Keys, rw);
    if res.NoEnt? {
      return NoEnt;
    }
    var src := res.src;
    var c := Converted(config, codecs, files, src, src != Paths.Swap(rw, ".jpg"));
    if c.None? {
      return OpenErr(src);
    }
    var added;
    fd, added := cache.Insert(rw, c.value);
    if added {
      memo.Set(rw, |c.value|);
    }
    r := Handle(fd);
  }

  /** `ddsfs_open` on `rw` under CACHE_DISK: the converted bytes are written
      to a real `.dds` file next to the image, which later calls find as an
      existing file. */
  method OpenDisk(config: Config, codecs: Codecs, disk: Disk, rw: string) returns (r: Opened)
    modifies disk
    ensures var files := old(disk.files);
      && (rw in files ==> r == Direct && disk.files == files)
      && (rw !in files && !Paths.ExtIs(rw, ".dds") ==> r == OpenErr(rw) && disk.files == files)
      && (rw !in files && Paths.ExtIs(rw, ".dds") ==>
            var res := Paths.DdsfsOpenSource(files.Keys, rw);
            && (res.NoEnt? ==> r == NoEnt && disk.files == files)
            && (res.Alternate? ==>
                  var c := Converted(config, codecs, files, res.src, res.src != Paths.Swap(rw, ".jpg"));
                  && (c.None? ==> r == OpenErr(res.src) && disk.files == files)
                  && (c.Some? && !disk.creatable(rw) ==> r == OpenErr(rw) && disk.files == files)
                  && (c.Some? && disk.creatable(rw) ==> r == Direct && disk.files == files[rw := c.value])))
  {
    var files := disk.files;
    if rw in files {
      return Direct;
    }
    if !Paths.ExtIs(rw, ".dds") {
      return OpenErr(rw);
    }
    var res := Paths.DdsfsOpenSource(files.Keys, rw);
    if res.NoEnt? {
      return NoEnt;
    }
    var src := res.src;
    var c := Converted(config, codecs, files, src, src != Paths.Swap(rw, ".jpg"));
    if c.None? {
      return OpenErr(src);
    }
    r := disk.Write(rw, c.value);
  }

  /** The size open remembers is never the one getattr asks for: open
      records it under the `.dds` path, getattr looks up the image's path,
      whose extension differs. */
  lemma {:induction false} OpenKeyIsNotGetattrKey(rw: string)
    requires Paths.ExtIs(rw, ".dds")
    ensures Paths.Swap(rw, ".jpg") != rw && Paths.Swap(rw, ".webp") != rw
  {
    var k := Paths.LastDot(rw).k;
    assert Paths.Lowered(rw[k..])[1] == Paths.Lower(rw[k + 1]);
    assert Paths.Lowered(".dds")[1] == 'd';
    assert Paths.Swap(rw, ".jpg")[k + 1] == 'j';
    assert |Paths.Swap(rw, ".webp")| == |rw| + 1;
  }

  /** At a directory other than the root, readdir reads the size open
      remembered for the `.dds` twin: both use `dir + "/" + twin`. */
  lemma {:induction false} ListingFindsOpenSize(fs: set<string>, dir: string, stem: string, size: int)
    requires dir + "/" + stem + ".jpg" in fs && dir + "/" + stem + ".dds" !in fs
    ensures Paths.DdsfsListedFor(fs, map[dir + "/" + stem + ".dds" := size], dir, stem + ".jpg")
      == [Paths.Listed(stem + ".jpg", -1), Paths.Listed(stem + ".dds", size)]
  {
    Paths.ListedJpgResolves(fs, dir, stem);
    assert dir + "/" + (stem + ".dds") == dir + "/" + stem + ".dds";
  }

  /** At the root the FUSE path is "/", so readdir's directory is
      `base + "/"` and it reads the size under `base + "//" + twin`, while
      open remembered it under `base + "/" + twin`: the size is not found. */
  lemma {:induction false} RootListingMissesOpenSize(fs: set<string>, base: string, stem: string, size: int)
    requires base + "//" + stem + ".dds" !in fs
    ensures Paths.DdsfsListedFor(fs, map[base + "/" + stem + ".dds" := size], base + "/", stem + ".jpg")
      == [Paths.Listed(stem + ".jpg", -1), Paths.Listed(stem + ".dds", -1)]
  {
    Paths.Suffixes();
    Paths.Suffixed(stem, ".jpg", ".jpg");
    Paths.Suffixed(stem, ".jpg", ".dds");
    assert base + "/" + "/" + (stem + ".dds") == base + "//" + stem + ".dds";
    assert |base + "//" + stem + ".dds"| != |base + "/" + stem + ".dds"|;
  }
}
