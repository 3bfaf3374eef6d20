/** What the two in-memory handle caches share: the inline cache of ddsfs.cpp
    and the memcache.cpp API. Both keep a map from handle id to entry
    (`memcache`), a map from .dds path to entry (`memindex`) and a list of
    paths, least recently used first (`memlru`). Entries are heap objects the
    two maps share; the model names them by number (an `Id`) and keeps the
    live ones in a map from Id to Entry. */
module CacheCommon {
  import opened Wrappers

  /** `config.cache`: 0 keeps a file in memory only while it is open, 1 writes
      it to disk instead, 2 and above keep up to that many paths in memory. */
  const CacheNone: nat := 0
  const CacheDisk: nat := 1
  const CacheMem: nat := 2

  /** The range of handle ids: the counter starts at 100 and wraps back to 100
      past 1000000. */
  const FirstFd: int := 100
  const LastFd: int := 1000000

  type Id = nat

  /** A `CacheEntry`: its path, the `len` bytes a read may return, and its
      reference count (1 when created). */
  datatype Entry = Entry(name: string, data: seq<bv8>, refs: int)

  /** The memory-cache part of the state, as plain values. */
  datatype Cached = Cached(index: map<string, Id>, store: map<Id, Entry>, lru: seq<string>)

  predicate InRange(fd: int) {
    FirstFd <= fd <= LastFd
  }

  /** The counter after `nextfd++; if (nextfd > 1000000) nextfd = 100;`. */
  function Wrap(n: int): (r: int)
    requires InRange(n)
    ensures InRange(r)
    ensures n < LastFd ==> r == n + 1
    ensures n == LastFd ==> r == FirstFd
  {
    if n + 1 > LastFd then FirstFd else n + 1
  }

  /** How many counter steps lead from `from` to `to`. */
  function Dist(from: int, to: int): (d: nat)
    requires InRange(from) && InRange(to)
    ensures d <= LastFd - FirstFd
    ensures d == 0 <==> from == to
  {
    if from <= to then to - from else to - from + (LastFd - FirstFd + 1)
  }

  /** One step of the counter is one step less to go to any other id, and
      one step more from where it started, unless that wraps all the way
      round. */
  lemma {:induction false} DistStep(start: int, fd: int, to: int)
    requires InRange(start) && InRange(fd) && InRange(to) && fd != to
    ensures Dist(Wrap(fd), to) == Dist(fd, to) - 1
    ensures Dist(start, fd) < LastFd - FirstFd ==> Dist(start, Wrap(fd)) == Dist(start, fd) + 1
  {
  }

  /** Some id in the range is not bound: the search loop ends. */
  ghost predicate HasFree<V>(handles: map<int, V>) {
    exists f :: InRange(f) && f !in handles
  }

  /** The do-while loop that picks a handle id (`fd = nextfd++`, wrapping,
      until `memcache.find(fd)` fails): the first unbound id at or after the
      counter, counting round the range, and the counter just past it. */
  method NextFree<V>(handles: map<int, V>, next: int) returns (fd: int, next': int)
    requires InRange(next) && HasFree(handles)
    ensures InRange(fd) && fd !in handles && next' == Wrap(fd)
    ensures forall k :: InRange(k) && Dist(next, k) < Dist(next, fd) ==> k in handles
  {
    ghost var free :| InRange(free) && free !in handles;
    fd := next;
    next' := Wrap(next);
    while fd in handles
      invariant InRange(fd) && next' == Wrap(fd)
      invariant forall k :: InRange(k) && Dist(next, k) < Dist(next, fd) ==> k in handles
      invariant Dist(next, fd) <= Dist(next, free)
      invariant Dist(fd, free) == Dist(next, free) - Dist(next, fd)
      decreases Dist(fd, free)
    {
      DistStep(next, fd, free);
      fd := next';
      next' := Wrap(next');
    }
  }

  /** The position of the first occurrence of `name`, or |lru| if none. */
  function FirstIndex(lru: seq<string>, name: string): (k: nat)
    ensures k <= |lru|
    ensures k < |lru| ==> lru[k] == name
    ensures forall j :: 0 <= j < k ==> lru[j] != name
  {
    if |lru| == 0 then 0
    else if lru[0] == name then 0
    else 1 + FirstIndex(lru[1..], name)
  }

  /** The list without its element k (unchanged when there is none). */
  function Drop(s: seq<string>, k: nat): (r: seq<string>)
    ensures |r| == if k < |s| then |s| - 1 else |s|
  {
    if k < |s| then s[..k] + s[k + 1..] else s
  }

  /** Element i of the list without element k. */
  lemma {:induction false} DropAt(s: seq<string>, k: nat)
    ensures k < |s| ==> forall i :: 0 <= i < |s| - 1 ==> Drop(s, k)[i] == (if i < k then s[i] else s[i + 1])
    ensures k >= |s| ==> Drop(s, k) == s
  {
    if k < |s| {
      var r := Drop(s, k);
      assert r == s[..k] + s[k + 1..];
      forall i | 0 <= i < |s| - 1
        ensures r[i] == (if i < k then s[i] else s[i + 1])
      {
        if i < k { assert r[i] == s[..k][i]; } else { assert r[i] == s[k + 1..][i - k]; }
      }
    }
  }

  /** The loop of `refresh` / `lru_hit` that looks for `name`. */
  method FindName(lru: seq<string>, name: string) returns (k: nat)
    ensures k == FirstIndex(lru, name)
  {
    k := 0;
    while k < |lru| && lru[k] != name
      invariant k <= |lru|
      invariant forall j :: 0 <= j < k ==> lru[j] != name
    {
      k := k + 1;
    }
  }

  /** The list after `refresh(name)` / the list part of `lru_hit(name)`: the
      first occurrence of `name` erased, then `name` appended. */
  function Refreshed(lru: seq<string>, name: string): (r: seq<string>)
    ensures |r| == if name in lru then |lru| else |lru| + 1
    ensures r[|r| - 1] == name
    ensures forall n :: n in r <==> n in lru || n == name
  {
    var k := FirstIndex(lru, name);
    var r := Drop(lru, k) + [name];
    DropAt(lru, k);
    assert forall n :: n in lru ==> n in r by {
      forall n | n in lru ensures n in r {
        var i :| 0 <= i < |lru| && lru[i] == n;
        if i < k { assert r[i] == n; } else if i > k { assert r[i - 1] == n; }
      }
    }
    r
  }

  /** The elements other than `name`, in their order. */
  function Others(lru: seq<string>, name: string): (r: seq<string>)
    ensures name !in r
    ensures multiset(r)[name] == 0
  {
    if |lru| == 0 then []
    else if lru[0] == name then Others(lru[1..], name)
    else [lru[0]] + Others(lru[1..], name)
  }

  /** With at most one prior occurrence, `refresh` leaves `name` exactly once,
      at the tail, and every other path in its old relative order. */
  lemma {:induction false} RefreshedOnce(lru: seq<string>, name: string)
    requires multiset(lru)[name] <= 1
    ensures Refreshed(lru, name) == Others(lru, name) + [name]
    ensures multiset(Refreshed(lru, name))[name] == 1
  {
    DropFirst(lru, name);
  }

  lemma {:induction false} DropFirst(lru: seq<string>, name: string)
    requires multiset(lru)[name] <= 1
    ensures Drop(lru, FirstIndex(lru, name)) == Others(lru, name)
  {
    if |lru| > 0 {
      var tail := lru[1..];
      assert lru == [lru[0]] + tail;
      assert multiset(lru) == multiset{lru[0]} + multiset(tail);
      if lru[0] == name {
        assert multiset(tail)[name] == 0;
        NoneToDrop(tail, name);
        assert FirstIndex(lru, name) == 0;
        assert Drop(lru, 0) == tail;
      } else {
        assert multiset(tail)[name] == multiset(lru)[name];
        DropFirst(tail, name);
        assert FirstIndex(lru, name) == FirstIndex(tail, name) + 1;
        DropCons(lru, FirstIndex(tail, name));
        assert Others(lru, name) == [lru[0]] + Others(tail, name);
      }
    }
  }

  lemma {:induction false} DropCons(s: seq<string>, k: nat)
    requires |s| > 0
    ensures Drop(s, k + 1) == [s[0]] + Drop(s[1..], k)
  {
    if k + 1 < |s| {
      assert s[..k + 1] == [s[0]] + s[1..][..k];
      assert s[k + 2..] == s[1..][k + 1..];
    } else {
      assert s == [s[0]] + s[1..];
    }
  }

  lemma {:induction false} NoneToDrop(lru: seq<string>, name: string)
    requires name !in lru
    ensures Others(lru, name) == lru
  {
    if |lru| > 0 {
      NoneToDrop(lru[1..], name);
      assert lru == [lru[0]] + lru[1..];
    }
  }

  /** No path occurs twice. */
  predicate NoDup(s: seq<string>) {
    forall i, j :: 0 <= i < j < |s| ==> s[i] != s[j]
  }

  /** Every indexed path names a live entry whose own name it is. */
  predicate Linked(c: Cached) {
    forall n :: n in c.index ==> c.index[n] in c.store && c.store[c.index[n]].name == n
  }

  /** The position the tidy scan stops at: the first path that is not in the
      index or whose entry has no references; |lru| if there is none. */
  function Evictable(c: Cached): (k: nat)
    requires Linked(c)
    ensures k <= |c.lru|
    ensures forall j :: 0 <= j < k ==> c.lru[j] in c.index && c.store[c.index[c.lru[j]]].refs != 0
    ensures k < |c.lru| ==> c.lru[k] !in c.index || c.store[c.index[c.lru[k]]].refs == 0
    decreases |c.lru|
  {
    if |c.lru| == 0 then 0
    else if c.lru[0] !in c.index || c.store[c.index[c.lru[0]]].refs == 0 then 0
    else 1 + Evictable(c.(lru := c.lru[1..]))
  }

  /** The inner do-while of `tidycache` / `lru_tidy`, walking the list from
      its head. */
  method Scan(c: Cached) returns (k: nat)
    requires Linked(c)
    ensures k == Evictable(c)
  {
    k := 0;
    while k < |c.lru| && c.lru[k] in c.index && c.store[c.index[c.lru[k]]].refs != 0
      invariant k <= |c.lru|
      invariant forall j :: 0 <= j < k ==> c.lru[j] in c.index && c.store[c.index[c.lru[j]]].refs != 0
    {
      k := k + 1;
    }
  }

  /** One eviction: the entry of the path at position k leaves the index
      (under its own name) and the heap, and the path leaves the list. */
  function Evict(c: Cached, k: nat): (r: Cached)
    requires Linked(c) && k < |c.lru| && c.lru[k] in c.index
    ensures Linked(r)
  {
    var e := c.index[c.lru[k]];
    Cached(c.index - {c.store[e].name}, c.store - {e}, Drop(c.lru, k))
  }

  /** What `tidycache` / `lru_tidy` leave: while the list is longer than the
      limit, evict the first evictable path, and stop when there is none.
      None where memcache.cpp's `memindex->at` meets a path that is not
      indexed (it throws). ddsfs.cpp's `memindex[*i]` would instead drop that
      path from the list, but its tidy only ever runs on an indexed list
      (`TrimmedKeeps`), so None never arises there. */
  function Trimmed(c: Cached, limit: nat): (r: Option<Cached>)
    requires Linked(c)
    ensures r.Some? ==> Linked(r.value)
    decreases |c.lru|
  {
    if |c.lru| <= limit then Some(c)
    else
      var k := Evictable(c);
      if k == |c.lru| then Some(c)
      else if c.lru[k] !in c.index then None
      else Trimmed(Evict(c, k), limit)
  }

  /** Handles bound to entry e. */
  function Holders(handles: map<int, Id>, e: Id): set<int> {
    set fd | fd in handles && handles[fd] == e
  }

  function Count(handles: map<int, Id>, e: Id): nat {
    |Holders(handles, e)|
  }

  /** Binding a new handle to e counts one more holder of e, and of no other
      entry. */
  lemma {:induction false} CountBind(handles: map<int, Id>, fd: int, e: Id, x: Id)
    requires fd !in handles
    ensures Count(handles[fd := e], x) == Count(handles, x) + (if x == e then 1 else 0)
  {
    if x == e {
      assert Holders(handles[fd := e], x) == Holders(handles, x) + {fd};
    } else {
      assert Holders(handles[fd := e], x) == Holders(handles, x);
    }
  }

  /** Unbinding a handle counts one holder fewer of the entry it was bound
      to, and of no other. */
  lemma {:induction false} CountUnbind(handles: map<int, Id>, fd: int, x: Id)
    requires fd in handles
    ensures Count(handles - {fd}, x) == Count(handles, x) - (if handles[fd] == x then 1 else 0)
  {
    if handles[fd] == x {
      assert Holders(handles, x) == Holders(handles - {fd}, x) + {fd};
    } else {
      assert Holders(handles - {fd}, x) == Holders(handles, x);
    }
  }

  /** The invariant both caches keep between calls:
      - every indexed path names a live entry of that name;
      - every handle id is in range and bound to a live entry;
      - every live entry's `refs` is the number of handles bound to it;
      - every indexed path is on the LRU list;
      - when the list is trimmed (cache >= 2), it holds each path once and
        only indexed paths. */
  ghost predicate Kept(c: Cached, handles: map<int, Id>, alloc: Id, limit: nat) {
    && Linked(c)
    && (forall fd :: fd in handles ==> InRange(fd) && handles[fd] in c.store)
    && (forall e :: e in c.store ==> e < alloc && c.store[e].refs == Count(handles, e))
    && (forall n :: n in c.index ==> n in c.lru)
    && (limit >= CacheMem ==> NoDup(c.lru) && forall n :: n in c.lru ==> n in c.index)
  }

  /** Every live entry is indexed under its name (no orphans). */
  ghost predicate Indexed(c: Cached) {
    forall e :: e in c.store ==> c.store[e].name in c.index && c.index[c.store[e].name] == e
  }

  /** The elements other than `name` of a list without duplicates hold no
      duplicates either. */
  lemma {:induction false} OthersNoDup(lru: seq<string>, name: string)
    requires NoDup(lru)
    ensures NoDup(Others(lru, name)) && forall n :: n in Others(lru, name) ==> n in lru
  {
    if |lru| > 0 {
      OthersNoDup(lru[1..], name);
      assert lru[0] !in lru[1..];
    }
  }

  /** After `refresh(name)` of a list without duplicates, still none. */
  lemma {:induction false} RefreshedNoDup(lru: seq<string>, name: string)
    requires NoDup(lru)
    ensures NoDup(Refreshed(lru, name))
  {
    var k := FirstIndex(lru, name);
    var d := Drop(lru, k);
    DropAt(lru, k);
    assert NoDup(d) by {
      forall i, j | 0 <= i < j < |d| ensures d[i] != d[j] {
        var i', j' := if i < k then i else i + 1, if j < k then j else j + 1;
        assert d[i] == lru[i'] && d[j] == lru[j'];
      }
    }
    assert name !in d by {
      forall i | 0 <= i < |d| ensures d[i] != name {
        if i >= k && k < |lru| { assert d[i] == lru[i + 1]; }
      }
    }
  }

  /** A hit: a new handle bound to the entry of `n`, one more reference, and
      `n` refreshed on the list. */
  function Hit(c: Cached, n: string): (r: Cached)
    requires Linked(c) && n in c.index
    ensures r.index == c.index && r.lru == Refreshed(c.lru, n)
    ensures r.store == c.store[c.index[n] := c.store[c.index[n]].(refs := c.store[c.index[n]].refs + 1)]
  {
    var e := c.index[n];
    Cached(c.index, c.store[e := c.store[e].(refs := c.store[e].refs + 1)], Refreshed(c.lru, n))
  }

  lemma {:induction false} HitKeeps(c: Cached, handles: map<int, Id>, alloc: Id, limit: nat, n: string, fd: int)
    requires Kept(c, handles, alloc, limit) && n in c.index && InRange(fd) && fd !in handles
    ensures Kept(Hit(c, n), handles[fd := c.index[n]], alloc, limit)
    ensures Indexed(c) ==> Indexed(Hit(c, n))
  {
    var e, r, h := c.index[n], Hit(c, n), handles[fd := c.index[n]];
    assert r.store.Keys == c.store.Keys;
    assert Linked(r);
    assert forall x :: x in h ==> InRange(x) && h[x] in r.store;
    forall x | x in r.store ensures x < alloc && r.store[x].refs == Count(h, x) {
      CountBind(handles, fd, e, x);
    }
    assert forall m :: m in r.index ==> m in r.lru;
    if limit >= CacheMem {
      RefreshedNoDup(c.lru, n);
    }
  }

  /** ddsfs.cpp's insert of a path not yet indexed: a new entry with one
      reference, indexed under its path and appended to the list. */
  function Added(c: Cached, n: string, data: seq<bv8>, id: Id): (r: Cached)
    ensures r.index == c.index[n := id] && r.lru == c.lru + [n]
    ensures r.store == c.store[id := Entry(n, data, 1)]
  {
    Cached(c.index[n := id], c.store[id := Entry(n, data, 1)], c.lru + [n])
  }

  lemma {:induction false} AddedKeeps(c: Cached, handles: map<int, Id>, alloc: Id, limit: nat, n: string, data: seq<bv8>, fd: int)
    requires Kept(c, handles, alloc, limit) && n !in c.index && InRange(fd) && fd !in handles
    ensures Kept(Added(c, n, data, alloc), handles[fd := alloc], alloc + 1, limit)
    ensures Indexed(c) ==> Indexed(Added(c, n, data, alloc))
  {
    var r, h := Added(c, n, data, alloc), handles[fd := alloc];
    assert alloc !in c.store;
    assert Linked(r);
    assert forall x :: x in h ==> InRange(x) && h[x] in r.store;
    forall x | x in r.store ensures x < alloc + 1 && r.store[x].refs == Count(h, x) {
      CountBind(handles, fd, alloc, x);
      if x == alloc {
        NoHolders(c, handles, alloc, limit);
      }
    }
    assert forall m :: m in r.index ==> m in r.lru;
    if limit >= CacheMem {
      assert n !in c.lru;
      assert NoDup(r.lru);
    }
  }

  /** memcache.cpp's store: a new entry with one reference; the path is
      indexed only if it was not already (`emplace` keeps the old entry), and
      refreshed on the list. */
  function Stored(c: Cached, n: string, data: seq<bv8>, id: Id): (r: Cached)
    ensures r.index == if n in c.index then c.index else c.index[n := id]
    ensures r.lru == Refreshed(c.lru, n) && r.store == c.store[id := Entry(n, data, 1)]
    ensures Linked(c) && id !in c.store ==> Linked(r)
  {
    Cached(if n in c.index then c.index else c.index[n := id], c.store[id := Entry(n, data, 1)], Refreshed(c.lru, n))
  }

  lemma {:induction false} StoredKeeps(c: Cached, handles: map<int, Id>, alloc: Id, limit: nat, n: string, data: seq<bv8>, fd: int)
    requires Kept(c, handles, alloc, limit) && InRange(fd) && fd !in handles
    ensures Kept(Stored(c, n, data, alloc), handles[fd := alloc], alloc + 1, limit)
  {
    var r, h := Stored(c, n, data, alloc), handles[fd := alloc];
    assert alloc !in c.store;
    assert Linked(r);
    assert forall x :: x in h ==> InRange(x) && h[x] in r.store;
    forall x | x in r.store ensures x < alloc + 1 && r.store[x].refs == Count(h, x) {
      CountBind(handles, fd, alloc, x);
      if x == alloc {
        NoHolders(c, handles, alloc, limit);
      }
    }
    assert forall m :: m in r.index ==> m in r.lru;
    if limit >= CacheMem {
      RefreshedNoDup(c.lru, n);
    }
  }

  /** Releasing a bound handle: under CACHE_NONE the last reference frees
      the entry and takes its name out of the index (not off the list);
      otherwise the entry keeps one reference fewer. */
  function Released(c: Cached, handles: map<int, Id>, fd: int, limit: nat): (r: Cached)
    requires fd in handles && handles[fd] in c.store
    ensures r.lru == c.lru
  {
    var e := handles[fd];
    if limit == CacheNone && c.store[e].refs <= 1 then
      Cached(c.index - {c.store[e].name}, c.store - {e}, c.lru)
    else
      Cached(c.index, c.store[e := c.store[e].(refs := c.store[e].refs - 1)], c.lru)
  }

  lemma {:induction false} ReleasedKeeps(c: Cached, handles: map<int, Id>, alloc: Id, limit: nat, fd: int)
    requires Kept(c, handles, alloc, limit) && fd in handles
    ensures Kept(Released(c, handles, fd, limit), handles - {fd}, alloc, limit)
    ensures Indexed(c) ==> Indexed(Released(c, handles, fd, limit))
  {
    var e, r, h := handles[fd], Released(c, handles, fd, limit), handles - {fd};
    forall x | x in c.store ensures Count(h, x) == Count(handles, x) - (if x == e then 1 else 0) {
      CountUnbind(handles, fd, x);
    }
    if limit == CacheNone && c.store[e].refs <= 1 {
      assert fd in Holders(handles, e);
      assert Count(h, e) == 0;
      forall x | x in h ensures h[x] != e {
        assert x in Holders(h, e) ==> Count(h, e) >= 1;
      }
      assert Linked(r);
    } else {
      assert Linked(r);
    }
    assert forall x :: x in h ==> InRange(x) && h[x] in r.store;
  }

  /** A handle bound to e counts as a holder of e. */
  lemma {:induction false} Held(handles: map<int, Id>, fd: int)
    requires fd in handles
    ensures Count(handles, handles[fd]) >= 1
  {
    assert fd in Holders(handles, handles[fd]);
  }

  /** An id that is not live has no holders. */
  lemma {:induction false} NoHolders(c: Cached, handles: map<int, Id>, alloc: Id, limit: nat)
    requires Kept(c, handles, alloc, limit)
    ensures Count(handles, alloc) == 0
  {
    assert Holders(handles, alloc) == {} by {
      forall y | y in handles ensures handles[y] != alloc {
        assert handles[y] in c.store;
      }
    }
  }

  /** Evicting the entry the scan found keeps the invariant: it has no
      references, so no handle is bound to it. */
  lemma {:induction false} EvictKeeps(c: Cached, handles: map<int, Id>, alloc: Id, limit: nat, k: nat)
    requires Kept(c, handles, alloc, limit) && k == Evictable(c) && k < |c.lru| && c.lru[k] in c.index
    ensures Kept(Evict(c, k), handles, alloc, limit)
    ensures Indexed(c) ==> Indexed(Evict(c, k))
  {
    var n := c.lru[k];
    var e, r := c.index[n], Evict(c, k);
    assert c.store[e].name == n && c.store[e].refs == 0;
    forall x | x in handles ensures handles[x] != e {
      Held(handles, x);
    }
    assert Linked(r);
    EvictListed(c, k);
    if limit >= CacheMem {
      EvictNoDup(c, k);
    }
  }

  lemma {:induction false} EvictListed(c: Cached, k: nat)
    requires Linked(c) && k < |c.lru| && c.lru[k] in c.index
    requires forall m :: m in c.index ==> m in c.lru
    ensures forall m :: m in Evict(c, k).index ==> m in Evict(c, k).lru
  {
    var r := Evict(c, k);
    DropAt(c.lru, k);
    forall m | m in r.index ensures m in r.lru {
      var i :| 0 <= i < |c.lru| && c.lru[i] == m;
      if i < k { assert r.lru[i] == m; } else { assert r.lru[i - 1] == m; }
    }
  }

  lemma {:induction false} EvictNoDup(c: Cached, k: nat)
    requires Linked(c) && k < |c.lru| && c.lru[k] in c.index
    requires NoDup(c.lru) && forall m :: m in c.lru ==> m in c.index
    ensures NoDup(Evict(c, k).lru) && forall m :: m in Evict(c, k).lru ==> m in Evict(c, k).index
  {
    var r := Evict(c, k);
    DropAt(c.lru, k);
    forall i, j | 0 <= i < j < |r.lru| ensures r.lru[i] != r.lru[j] {
      var i', j' := if i < k then i else i + 1, if j < k then j else j + 1;
      assert r.lru[i] == c.lru[i'] && r.lru[j] == c.lru[j'];
    }
    forall m | m in r.lru ensures m in r.index {
      var i :| 0 <= i < |r.lru| && r.lru[i] == m;
      var i' := if i < k then i else i + 1;
      assert c.lru[i'] == m && i' != k;
    }
  }

  /** Trimming keeps the invariant, and with it every path on a trimmed list
      (cache >= 2) is indexed, so `memindex->at` never throws there. */
  lemma {:induction false} TrimmedKeeps(c: Cached, handles: map<int, Id>, alloc: Id, limit: nat)
    requires Kept(c, handles, alloc, limit)
    ensures limit >= CacheMem ==> Trimmed(c, limit).Some?
    ensures Trimmed(c, limit).Some? ==> Kept(Trimmed(c, limit).value, handles, alloc, limit)
    ensures Trimmed(c, limit).Some? && Indexed(c) ==> Indexed(Trimmed(c, limit).value)
    decreases |c.lru|
  {
    if |c.lru| > limit {
      var k := Evictable(c);
      if k < |c.lru| && c.lru[k] in c.index {
        EvictKeeps(c, handles, alloc, limit, k);
        TrimmedKeeps(Evict(c, k), handles, alloc, limit);
      }
    }
  }

  /** Trimming evicts only entries without references: every entry left is
      unchanged, every entry gone had `refs == 0`, and only evicted paths
      leave the index. */
  lemma {:induction false} TrimmedEvictsUnreferenced(c: Cached, limit: nat)
    requires Linked(c) && Trimmed(c, limit).Some?
    ensures var r := Trimmed(c, limit).value;
      && (forall e :: e in r.store ==> e in c.store && r.store[e] == c.store[e])
      && (forall e :: e in c.store && e !in r.store ==> c.store[e].refs == 0)
      && (forall n :: n in r.index ==> n in c.index && r.index[n] == c.index[n])
    decreases |c.lru|
  {
    if |c.lru| > limit {
      var k := Evictable(c);
      if k < |c.lru| && c.lru[k] in c.index {
        TrimmedEvictsUnreferenced(Evict(c, k), limit);
      }
    }
  }

  /** Trimming stops with the list within the limit, or with every path on
      it indexed and referenced. */
  lemma {:induction false} TrimmedStops(c: Cached, limit: nat)
    requires Linked(c) && Trimmed(c, limit).Some?
    ensures var r := Trimmed(c, limit).value;
      |r.lru| <= limit || forall n :: n in r.lru ==> n in r.index && r.store[r.index[n]].refs != 0
    decreases |c.lru|
  {
    if |c.lru| > limit {
      var k := Evictable(c);
      if k < |c.lru| && c.lru[k] in c.index {
        TrimmedStops(Evict(c, k), limit);
      }
    }
  }

  /** ddsfs.cpp's insert of a path not yet indexed, followed by
      `tidycache` when the cache is an LRU cache (cache >= 2). */
  function Inserted(c: Cached, n: string, data: seq<bv8>, id: Id, limit: nat): Option<Cached>
    requires Linked(Added(c, n, data, id))
  {
    if limit >= CacheMem then Trimmed(Added(c, n, data, id), limit) else Some(Added(c, n, data, id))
  }

  /** The tidy after an insert never throws the new entry out: it is
      referenced by the new handle, so it stays indexed under its path with
      the inserted bytes and one reference, and the invariant holds. */
  lemma {:induction false} InsertedKeepsEntry(c: Cached, handles: map<int, Id>, alloc: Id, limit: nat, n: string, data: seq<bv8>, fd: int)
    requires Kept(c, handles, alloc, limit) && Indexed(c) && n !in c.index && InRange(fd) && fd !in handles
    ensures Linked(Added(c, n, data, alloc)) && Inserted(c, n, data, alloc, limit).Some?
    ensures var r := Inserted(c, n, data, alloc, limit).value;
      && Kept(r, handles[fd := alloc], alloc + 1, limit) && Indexed(r)
      && n in r.index && r.index[n] == alloc && r.store[alloc] == Entry(n, data, 1)
  {
    var a, h := Added(c, n, data, alloc), handles[fd := alloc];
    AddedKeeps(c, handles, alloc, limit, n, data, fd);
    if limit >= CacheMem {
      TrimmedKeeps(a, h, alloc + 1, limit);
      TrimmedEvictsUnreferenced(a, limit);
      var r := Trimmed(a, limit).value;
      assert a.store[alloc].refs == 1;
      assert alloc in r.store && r.store[alloc] == a.store[alloc];
    }
  }

  /** What a cached read returns: a missing handle, an offset past the end
      (the C code then copies with a negative size), or the bytes from
      `offset` on, at most `size` of them. */
  datatype Served = NotCached | Overread | Bytes(data: seq<bv8>)

  /** The clamp of a cached read: `if (size + offset > len) size = len - offset;`
      then `len` bytes from `data + offset`. */
  function Clamp(data: seq<bv8>, size: nat, offset: nat): (r: Served)
    ensures r.Bytes? <==> offset <= |data|
    ensures r.Overread? <==> offset > |data|
    ensures r.Bytes? ==> |r.data| == (if size <= |data| - offset then size else |data| - offset)
    ensures r.Bytes? ==> r.data == data[offset .. offset + |r.data|]
  {
    if offset > |data| then Overread
    else if size + offset > |data| then Bytes(data[offset..])
    else Bytes(data[offset .. offset + size])
  }

  /** The cached read both caches perform: NotCached for a handle that is
      not bound, otherwise the bound entry's bytes, clamped. */
  function ReadHandle(handles: map<int, Id>, c: Cached, fd: int, size: nat, offset: nat): (r: Served)
    requires fd in handles ==> handles[fd] in c.store
    ensures r.NotCached? <==> fd !in handles
    ensures fd in handles ==> r == Clamp(c.store[handles[fd]].data, size, offset)
  {
    if fd in handles then Clamp(c.store[handles[fd]].data, size, offset) else NotCached
  }
}
