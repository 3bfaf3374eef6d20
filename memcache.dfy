/** The memory cache of memcache.cpp, the refactored form of the cache in
    ddsfs.cpp: `memcache_getfd`, `memcache_store`, `memcache_read` and
    `memcache_release`, with `lru_hit` and `lru_tidy` behind them. Unlike
    ddsfs.cpp it tidies on every hit whatever `config.cache` is, stores
    without checking the index again, and walks the list with
    `memindex->at`, which throws for a path that is not indexed. Each call
    holds `cachelock` throughout, so each method below is one atomic step. */
module MemCache {
  import opened Wrappers
  import opened CacheCommon

  class MemoryCache {
    /** `config.cache`. */
    const limit: nat
    /** `*memcache`: open handle id to entry. */
    var memcache: map<int, Id>
    /** `*memindex`, the live `CacheEntry` objects and `*memlru`. */
    var cache: Cached
    var nextfd: int
    /** How many entries were ever allocated; the next entry's id. */
    var alloc: Id

    ghost predicate Valid()
      reads this
    {
      InRange(nextfd) && Kept(cache, memcache, alloc, limit)
    }

    constructor (setting: nat)
      ensures Valid() && limit == setting && nextfd == FirstFd
      ensures memcache == map[] && cache == Cached(map[], map[], [])
    {
      limit := setting;
      memcache, cache, nextfd, alloc := map[], Cached(map[], map[], []), FirstFd, 0;
    }

    /** `lru_tidy`. It reports false where `memindex->at` throws: the scan
        met a path on the list that is not indexed. */
    method LruTidy() returns (ok: bool)
      requires Valid()
      modifies this
      ensures Valid() && memcache == old(memcache) && nextfd == old(nextfd) && alloc == old(alloc)
      ensures ok == Trimmed(old(cache), limit).Some?
      ensures ok ==> Some(cache) == Trimmed(old(cache), limit)
    {
      TrimmedKeeps(cache, memcache, alloc, limit);
      while |cache.lru| > limit
        invariant Valid() && memcache == old(memcache) && nextfd == old(nextfd) && alloc == old(alloc)
        invariant Trimmed(cache, limit) == Trimmed(old(cache), limit)
        decreases |cache.lru|
      {
        var k := Scan(cache);
        if k == |cache.lru| {
          return true;
        }
        if cache.lru[k] !in cache.index {
          return false;
        }
        EvictKeeps(cache, memcache, alloc, limit, k);
        var e := cache.index[cache.lru[k]];
        cache := Cached(cache.index - {cache.store[e].name}, cache.store - {e}, Drop(cache.lru, k));
      }
      ok := true;
    }

    /** `lru_hit(name)`: the first occurrence of `name` leaves the list,
        `name` is appended, then `lru_tidy`. The caller has already bound the
        handle, so the invariant holds once the list is refreshed. */
    method LruHit(name: string) returns (ok: bool)
      requires InRange(nextfd) && Kept(cache.(lru := Refreshed(cache.lru, name)), memcache, alloc, limit)
      modifies this
      ensures Valid() && memcache == old(memcache) && nextfd == old(nextfd) && alloc == old(alloc)
      ensures ok == Trimmed(old(cache).(lru := Refreshed(old(cache).lru, name)), limit).Some?
      ensures ok ==> Some(cache) == Trimmed(old(cache).(lru := Refreshed(old(cache).lru, name)), limit)
    {
      var k := FindName(cache.lru, name);
      cache := cache.(lru := Drop(cache.lru, k) + [name]);
      ok := LruTidy();
    }

    /** `memcache_nextfd`: the first id not in `memcache` from `nextfd` on,
        wrapping from 1000000 to 100. */
    method NextFd() returns (fd: int)
      requires InRange(nextfd) && HasFree(memcache)
      modifies this
      ensures InRange(fd) && fd !in memcache && nextfd == Wrap(fd)
      ensures memcache == old(memcache) && cache == old(cache) && alloc == old(alloc)
      ensures forall k :: InRange(k) && Dist(old(nextfd), k) < Dist(old(nextfd), fd) ==> k in memcache
    {
      fd, nextfd := NextFree(memcache, nextfd);
    }

    /** `memcache_getfd`: 0 and no change on a miss; on a hit a new handle
        bound to the entry, one more reference, and `lru_hit`. */
    method GetFd(name: string) returns (fd: int, ok: bool)
      requires Valid() && HasFree(memcache)
      modifies this
      ensures Valid() && alloc == old(alloc)
      ensures old(name !in cache.index) ==>
        fd == 0 && ok && memcache == old(memcache) && cache == old(cache) && nextfd == old(nextfd)
      ensures old(name in cache.index) ==>
        && InRange(fd) && fd !in old(memcache) && nextfd == Wrap(fd)
        && memcache == old(memcache)[fd := old(cache.index[name])]
        && ok == Trimmed(Hit(old(cache), name), limit).Some?
        && (ok ==> Some(cache) == Trimmed(Hit(old(cache), name), limit))
    {
      if name !in cache.index {
        return 0, true;
      }
      fd := NextFd();
      var e := cache.index[name];
      HitKeeps(cache, memcache, alloc, limit, name, fd);
      memcache := memcache[fd := e];
      // one more reference to the entry; `LruHit` refreshes the list
      cache := Hit(cache, name).(lru := cache.lru);
      ok := LruHit(name);
    }

    /** `memcache_store`: a new entry with one reference bound to a new
        handle; `emplace` indexes it only when the path is not indexed yet;
        then `lru_hit`. */
    method Store(name: string, data: seq<bv8>) returns (fd: int, ok: bool)
      requires Valid() && HasFree(memcache)
      modifies this
      ensures Valid() && InRange(fd) && fd !in old(memcache) && nextfd == Wrap(fd)
      ensures memcache == old(memcache)[fd := old(alloc)] && alloc == old(alloc) + 1
      ensures ok == Trimmed(Stored(old(cache), name, data, old(alloc)), limit).Some?
      ensures ok ==> Some(cache) == Trimmed(Stored(old(cache), name, data, old(alloc)), limit)
    {
      fd := NextFd();
      StoredKeeps(cache, memcache, alloc, limit, name, data, fd);
      memcache := memcache[fd := alloc];
      cache := Cached(if name in cache.index then cache.index else cache.index[name := alloc],
                      cache.store[alloc := Entry(name, data, 1)], cache.lru);
      alloc := alloc + 1;
      ok := LruHit(name);
    }

    /** `memcache_read`: -1 (NotCached) for a handle that is not bound,
        otherwise the entry's bytes clamped to its length. */
    function Read(fd: int, size: nat, offset: nat): (r: Served)
      reads this
      requires Valid()
      ensures r == ReadHandle(memcache, cache, fd, size, offset)
      ensures r.NotCached? <==> fd !in memcache
    {
      ReadHandle(memcache, cache, fd, size, offset)
    }

    /** `memcache_release`: true (1) iff the handle was bound. The handle is
        unbound, and its entry freed (under CACHE_NONE, at the last
        reference) or left with one reference fewer; the path stays on the
        list. */
    method Release(fd: int) returns (bound: bool)
      requires Valid()
      modifies this
      ensures Valid() && nextfd == old(nextfd) && alloc == old(alloc)
      ensures bound == (fd in old(memcache)) && fd !in memcache
      ensures bound ==> memcache == old(memcache) - {fd} && cache == Released(old(cache), old(memcache), fd, limit)
      ensures !bound ==> memcache == old(memcache) && cache == old(cache)
    {
      if fd !in memcache {
        return false;
      }
      var e := memcache[fd];
      ReleasedKeeps(cache, memcache, alloc, limit, fd);
      if limit == CacheNone && cache.store[e].refs <= 1 {
        cache := Cached(cache.index - {cache.store[e].name}, cache.store - {e}, cache.lru);
      } else {
        cache := cache.(store := cache.store[e := cache.store[e].(refs := cache.store[e].refs - 1)]);
      }
      memcache := memcache - {fd};
      bound := true;
    }
  }

  /** A store of a path that is already indexed: `emplace` keeps the old
      index entry, so the new entry is reachable only through its handle. */
  lemma {:induction false} StoreOrphans(c: Cached, n: string, data: seq<bv8>, id: Id)
    requires Linked(c) && id !in c.store && n in c.index
    ensures var r := Stored(c, n, data, id);
      && id in r.store && r.store[id].name == n
      && r.index[n] == c.index[n] != id
      && forall m :: m in r.index ==> r.index[m] != id
  {
  }

  /** The tidy evicts only through the index, so an entry no indexed path
      names survives every tidy, unchanged, whatever its reference count: once
      its handle is released it is never freed. */
  lemma {:induction false} OrphanStays(c: Cached, limit: nat, id: Id)
    requires Linked(c) && id in c.store && forall m :: m in c.index ==> c.index[m] != id
    ensures Trimmed(c, limit).Some? ==>
      var r := Trimmed(c, limit).value;
      && id in r.store && r.store[id] == c.store[id]
      && forall m :: m in r.index ==> r.index[m] != id
    decreases |c.lru|
  {
    if |c.lru| > limit {
      var k := Evictable(c);
      if k < |c.lru| && c.lru[k] in c.index {
        var d := Evict(c, k);
        assert id in d.store && d.store[id] == c.store[id];
        assert forall m :: m in d.index ==> m in c.index && d.index[m] == c.index[m];
        OrphanStays(d, limit, id);
      }
    }
  }

  /** Under CACHE_NONE the last release takes the path out of the index but
      not off the list, and the next store's `lru_hit` tidies with the list
      longer than 0: the scan meets that path first and `memindex->at`
      throws. Store "a", release it, store "b". */
  lemma {:induction false} NoneBreaksTidy(first: seq<bv8>, second: seq<bv8>, fd: int)
    requires InRange(fd)
    ensures var c0 := Cached(map[], map[], []);
      && Trimmed(Stored(c0, "a", first, 0), CacheNone) == Some(Stored(c0, "a", first, 0))
      && var c1 := Released(Stored(c0, "a", first, 0), map[fd := 0], fd, CacheNone);
      && c1 == Cached(map[], map[], ["a"])
      && Stored(c1, "b", second, 1).lru == ["a", "b"]
      && Trimmed(Stored(c1, "b", second, 1), CacheNone) == None
  {
    var c0 := Cached(map[], map[], []);
    var s1 := Stored(c0, "a", first, 0);
    assert Refreshed([], "a") == ["a"];
    assert s1 == Cached(map["a" := 0], map[0 := Entry("a", first, 1)], ["a"]);
    assert Evictable(s1) == 1;
    var c1 := Released(s1, map[fd := 0], fd, CacheNone);
    assert c1 == Cached(map[], map[], ["a"]);
    assert FirstIndex(["a"], "b") == 1;
    assert Refreshed(["a"], "b") == ["a", "b"];
    var s2 := Stored(c1, "b", second, 1);
    assert Evictable(s2) == 0;
  }
}
