/** The memory cache written inline in ddsfs.cpp: the globals `memcache`
    (handle id to entry), `memindex` (path to entry), `memlru` and `nextfd`,
    used by `ddsfs_open`, `ddsfs_read` and `ddsfs_release` whenever
    `config.cache` is not CACHE_DISK. Each call holds `cachelock` throughout,
    so each method below is one atomic step. */
module DdsfsCache {
  import opened Wrappers
  import opened CacheCommon

  class HandleCache {
    /** `config.cache`. */
    const limit: nat
    /** `memcache`: open handle id to entry. */
    var memcache: map<int, Id>
    /** `memindex`, the live `CacheEntry` objects and `memlru`. */
    var cache: Cached
    var nextfd: int
    /** How many entries were ever allocated; the next entry's id. */
    var alloc: Id

    /** The shared invariant, and no entry outside the index: the insert
        re-checks the index, so no path ever has two entries. */
    ghost predicate Valid()
      reads this
    {
      limit != CacheDisk && InRange(nextfd) && Kept(cache, memcache, alloc, limit) && Indexed(cache)
    }

    constructor (setting: nat)
      requires setting != CacheDisk
      ensures Valid() && limit == setting && nextfd == FirstFd
      ensures memcache == map[] && cache == Cached(map[], map[], [])
    {
      limit := setting;
      memcache, cache, nextfd, alloc := map[], Cached(map[], map[], []), FirstFd, 0;
    }

    /** `tidycache`, called only when `config.cache >= CACHE_MEM`: every path
        on the list is then indexed, so the branch for a path missing from
        the index never runs. */
    method Tidy()
      requires Valid() && limit >= CacheMem
      modifies this
      ensures Valid() && memcache == old(memcache) && nextfd == old(nextfd) && alloc == old(alloc)
      ensures Some(cache) == Trimmed(old(cache), limit)
    {
      TrimmedKeeps(cache, memcache, alloc, limit);
      while |cache.lru| > limit
        invariant Valid() && memcache == old(memcache) && nextfd == old(nextfd) && alloc == old(alloc)
        invariant Trimmed(cache, limit) == Trimmed(old(cache), limit)
        decreases |cache.lru|
      {
        var k := Scan(cache);
        if k == |cache.lru| {
          return;
        }
        EvictKeeps(cache, memcache, alloc, limit, k);
        var e := cache.index[cache.lru[k]];
        cache := Cached(cache.index - {cache.store[e].name}, cache.store - {e}, Drop(cache.lru, k));
      }
    }

    /** The lookup at the start of ddsfs_open: on a hit a new handle id is
        bound to the entry, its `refs` goes up by one and the path moves to
        the tail of the list; on a miss (0) nothing changes. */
    method Lookup(name: string) returns (fd: int)
      requires Valid() && HasFree(memcache)
      modifies this
      ensures Valid() && alloc == old(alloc)
      ensures old(name in cache.index) ==>
        && InRange(fd) && fd !in old(memcache) && nextfd == Wrap(fd)
        && memcache == old(memcache)[fd := old(cache.index[name])]
        && cache == Hit(old(cache), name)
      ensures old(name !in cache.index) ==>
        fd == 0 && memcache == old(memcache) && cache == old(cache) && nextfd == old(nextfd)
    {
      if name !in cache.index {
        return 0;
      }
      var next, c, handles;
      fd, next := NextFree(memcache, nextfd);
      c, handles := BindHit(cache, memcache, alloc, limit, name, fd);
      cache, memcache, nextfd := c, handles, next;
    }

    /** The insert at the end of ddsfs_open, after the conversion: a new
        handle id, then the index is checked again. If another open cached
        the path meanwhile, the new bytes are dropped and the handle shares
        that entry; otherwise a new entry with one reference is indexed,
        appended to the list, and the cache tidied when it is an LRU cache.
        `added` tells the caller to record the size. */
    method Insert(name: string, data: seq<bv8>) returns (fd: int, added: bool)
      requires Valid() && HasFree(memcache)
      modifies this
      ensures Valid() && InRange(fd) && fd !in old(memcache) && nextfd == Wrap(fd)
      ensures added == old(name !in cache.index)
      ensures !added ==>
        && memcache == old(memcache)[fd := old(cache.index[name])]
        && cache == Hit(old(cache), name) && alloc == old(alloc)
      ensures added ==>
        && memcache == old(memcache)[fd := old(alloc)] && alloc == old(alloc) + 1
        && Some(cache) == Inserted(old(cache), name, data, old(alloc), limit)
    {
      var next;
      fd, next := NextFree(memcache, nextfd);
      nextfd := next;
      if name in cache.index {
        cache, memcache := BindHit(cache, memcache, alloc, limit, name, fd);
        added := false;
      } else {
        Add(name, data, fd);
        added := true;
      }
    }

    /** The insert's branch for a path the re-check did not find: handle
        `fd` is bound to a new entry holding the bytes with one reference,
        indexed under the path, the path appended to the list, and the cache
        tidied when it is an LRU cache. */
    method Add(name: string, data: seq<bv8>, fd: int)
      requires Valid() && name !in cache.index && InRange(fd) && fd !in memcache
      modifies this
      ensures Valid() && nextfd == old(nextfd)
      ensures memcache == old(memcache)[fd := old(alloc)] && alloc == old(alloc) + 1
      ensures Some(cache) == Inserted(old(cache), name, data, old(alloc), limit)
    {
      AddedKeeps(cache, memcache, alloc, limit, name, data, fd);
      cache := Cached(cache.index[name := alloc], cache.store[alloc := Entry(name, data, 1)], cache.lru + [name]);
      memcache, alloc := memcache[fd := alloc], alloc + 1;
      if limit >= CacheMem {
        Tidy();
      }
    }

    /** The memory branch of ddsfs_read: bytes of the entry bound to the
        handle, clamped to its length. */
    function Read(fd: int, size: nat, offset: nat): (r: Served)
      reads this
      requires Valid()
      ensures r == ReadHandle(memcache, cache, fd, size, offset)
      ensures r.NotCached? <==> fd !in memcache
    {
      ReadHandle(memcache, cache, fd, size, offset)
    }

    /** ddsfs_release: handle 0 is ignored; a cached handle is unbound, and
        its entry freed (under CACHE_NONE, at the last reference) or left
        with one reference fewer; the path is never taken off the list. Any
        other handle is passed to close(). */
    method Release(fd: int) returns (outcome: Release)
      requires Valid()
      modifies this
      ensures Valid() && nextfd == old(nextfd) && alloc == old(alloc)
      ensures outcome == (if fd == 0 then Ignored else if fd in old(memcache) then Unbound else Passthrough)
      ensures outcome.Unbound? ==>
        memcache == old(memcache) - {fd} && cache == Released(old(cache), old(memcache), fd, limit)
      ensures !outcome.Unbound? ==> memcache == old(memcache) && cache == old(cache)
    {
      if fd == 0 {
        return Ignored;
      }
      if fd !in memcache {
        return Passthrough;
      }
      var e := memcache[fd];
      ReleasedKeeps(cache, memcache, alloc, limit, fd);
      if limit == CacheNone && cache.store[e].refs <= 1 {
        cache := Cached(cache.index - {cache.store[e].name}, cache.store - {e}, cache.lru);
      } else {
        cache := cache.(store := cache.store[e := cache.store[e].(refs := cache.store[e].refs - 1)]);
      }
      memcache := memcache - {fd};
      outcome := Unbound;
    }
  }

  /** The hit branch, shared by the lookup and the insert's re-check: handle
      `fd` is bound to the entry of `name`, which gains a reference, and
      `name` is refreshed on the list. */
  method BindHit(c: Cached, handles: map<int, Id>, alloc: Id, limit: nat, name: string, fd: int)
    returns (r: Cached, handles': map<int, Id>)
    requires Kept(c, handles, alloc, limit) && Indexed(c) && name in c.index && InRange(fd) && fd !in handles
    ensures handles' == handles[fd := c.index[name]] && r == Hit(c, name)
    ensures Kept(r, handles', alloc, limit) && Indexed(r)
  {
    var e := c.index[name];
    HitKeeps(c, handles, alloc, limit, name, fd);
    var k := FindName(c.lru, name);
    r := Cached(c.index, c.store[e := c.store[e].(refs := c.store[e].refs + 1)], Drop(c.lru, k) + [name]);
    handles' := handles[fd := e];
  }

  /** What ddsfs_release did with a handle. */
  datatype Release = Ignored | Unbound | Passthrough

  /** Two opens of the same uncached path race: both miss, both convert,
      both insert. The second insert's re-check finds the first one's entry,
      so its own conversion is dropped and one entry remains, holding the
      first conversion's bytes, with two references, one per handle. */
  lemma {:induction false} RacingInserts(c: Cached, handles: map<int, Id>, alloc: Id, limit: nat, name: string,
                                         first: seq<bv8>, fd1: int, fd2: int)
    requires Kept(c, handles, alloc, limit) && Indexed(c) && name !in c.index
    requires InRange(fd1) && InRange(fd2) && fd1 != fd2 && fd1 !in handles && fd2 !in handles
    ensures Linked(Added(c, name, first, alloc)) && Inserted(c, name, first, alloc, limit).Some?
    ensures var r := Inserted(c, name, first, alloc, limit).value;
      && name in r.index && Linked(r)
      && var s := Hit(r, name);
      && s.index[name] == alloc && s.store[alloc] == Entry(name, first, 2)
      && Kept(s, handles[fd1 := alloc][fd2 := alloc], alloc + 1, limit)
  {
    InsertedKeepsEntry(c, handles, alloc, limit, name, first, fd1);
    var r := Inserted(c, name, first, alloc, limit).value;
    HitKeeps(r, handles[fd1 := alloc], alloc + 1, limit, name, fd2);
  }
}
