/** The cache of encoded pictures and of wire ids in kit/Kit.cpp. */
module PngCaching {
  import opened Basics

  const SOFT_LIMIT := 1024 * 4 * 32
  const HARD_LIMIT := SOFT_LIMIT * 2
  const WID_LIMIT := 4096
  const WID_MODULUS := 0x1_0000_0000

  type Hash = nat
  type WireId = nat

  datatype CacheEntry = CacheEntry(hitCount: nat, wireId: WireId, data: seq<Byte>)

  type Cache = map<Hash, CacheEntry>

  // ----- sums over a cache -----

  ghost function SizeOf(cache: Cache, keys: set<Hash>): nat
    requires keys <= cache.Keys
  {
    if keys == {} then 0
    else var k :| k in keys; |cache[k].data| + SizeOf(cache, keys - {k})
  }

  ghost function HitsOf(cache: Cache, keys: set<Hash>): nat
    requires keys <= cache.Keys
  {
    if keys == {} then 0
    else var k :| k in keys; cache[k].hitCount + HitsOf(cache, keys - {k})
  }

  lemma {:induction false} SizeWithout(cache: Cache, keys: set<Hash>, x: Hash)
    requires keys <= cache.Keys && x in keys
    ensures SizeOf(cache, keys) == |cache[x].data| + SizeOf(cache, keys - {x})
    decreases keys
  {
    var k :| k in keys && SizeOf(cache, keys) == |cache[k].data| + SizeOf(cache, keys - {k});
    if k != x {
      SizeWithout(cache, keys - {k}, x);
      SizeWithout(cache, keys - {x}, k);
      assert keys - {k} - {x} == keys - {x} - {k};
    }
  }

  lemma {:induction false} HitsWithout(cache: Cache, keys: set<Hash>, x: Hash)
    requires keys <= cache.Keys && x in keys
    ensures HitsOf(cache, keys) == cache[x].hitCount + HitsOf(cache, keys - {x})
    decreases keys
  {
    var k :| k in keys && HitsOf(cache, keys) == cache[k].hitCount + HitsOf(cache, keys - {k});
    if k != x {
      HitsWithout(cache, keys - {k}, x);
      HitsWithout(cache, keys - {x}, k);
      assert keys - {k} - {x} == keys - {x} - {k};
    }
  }

  /** The size only depends on the data of the entries. */
  lemma {:induction false} SizeSame(a: Cache, b: Cache, keys: set<Hash>)
    requires keys <= a.Keys && keys <= b.Keys && (forall k :: k in keys ==> a[k].data == b[k].data)
    ensures SizeOf(a, keys) == SizeOf(b, keys)
    decreases keys
  {
    if keys != {} {
      var k :| k in keys && SizeOf(a, keys) == |a[k].data| + SizeOf(a, keys - {k});
      SizeSame(a, b, keys - {k});
      SizeWithout(b, keys, k);
    }
  }

  ghost function TotalSize(cache: Cache): nat {
    SizeOf(cache, cache.Keys)
  }

  lemma SizeAdded(cache: Cache, x: Hash, e: CacheEntry)
    requires x !in cache
    ensures TotalSize(cache[x := e]) == TotalSize(cache) + |e.data|
  {
    var more := cache[x := e];
    SizeWithout(more, more.Keys, x);
    assert more.Keys - {x} == cache.Keys;
    SizeSame(more, cache, cache.Keys);
  }

  lemma SizeRemoved(cache: Cache, x: Hash)
    requires x in cache
    ensures TotalSize(cache) == TotalSize(cache - {x}) + |cache[x].data|
  {
    var less := cache - {x};
    SizeWithout(cache, cache.Keys, x);
    assert less.Keys == cache.Keys - {x};
    SizeSame(less, cache, less.Keys);
  }

  lemma SizeUpdated(cache: Cache, x: Hash, e: CacheEntry)
    requires x in cache && e.data == cache[x].data
    ensures TotalSize(cache[x := e]) == TotalSize(cache)
  {
    assert cache[x := e].Keys == cache.Keys;
    SizeSame(cache[x := e], cache, cache.Keys);
  }

  /** Entries that were all hit more than some number of times were hit more than that often
      on average. */
  lemma {:induction false} HitsAbove(cache: Cache, keys: set<Hash>, n: nat)
    requires keys <= cache.Keys && (forall k :: k in keys ==> cache[k].hitCount > n)
    ensures HitsOf(cache, keys) >= |keys| * (n + 1)
    decreases keys
  {
    if keys != {} {
      var k :| k in keys && HitsOf(cache, keys) == cache[k].hitCount + HitsOf(cache, keys - {k});
      HitsAbove(cache, keys - {k}, n);
      assert |keys| == |keys - {k}| + 1;
      OneMoreTimes(|keys - {k}|, n + 1);
    }
  }

  lemma OneMoreTimes(m: nat, n: nat)
    ensures (m + 1) * n == m * n + n
  {
  }

  lemma SomeNotAboveAverage(cache: Cache)
    requires cache != map[]
    ensures |cache| > 0 && exists k :: k in cache && cache[k].hitCount <= HitsOf(cache, cache.Keys) / |cache|
  {
    assert |cache.Keys| == |cache|;
    var k :| k in cache;
    var total, n := HitsOf(cache, cache.Keys), |cache|;
    if forall k :: k in cache ==> cache[k].hitCount > total / n {
      HitsAbove(cache, cache.Keys, total / n);
      QuotientBound(total, n);
    }
  }

  lemma QuotientBound(total: nat, n: nat)
    requires n > 0
    ensures total < n * (total / n + 1)
  {
  }

  // ----- counting wire ids -----

  ghost predicate Injective(m: map<Hash, WireId>) {
    forall h, k :: h in m && k in m && m[h] == m[k] ==> h == k
  }

  lemma {:induction false} RangeCount(ids: set<nat>, low: nat, high: nat)
    requires low <= high && (forall x :: x in ids ==> low <= x < high)
    ensures |ids| <= high - low
    decreases high - low
  {
    if low == high {
      if x :| x in ids {
        assert false;
      }
    } else {
      RangeCount(ids - {high - 1}, low, high - 1);
      if high - 1 in ids {
        assert |ids| == |ids - {high - 1}| + 1;
      } else {
        assert ids - {high - 1} == ids;
      }
    }
  }

  lemma {:induction false} InjectiveCount(m: map<Hash, WireId>, ids: set<WireId>)
    requires Injective(m) && (forall h :: h in m ==> m[h] in ids)
    ensures |m| <= |ids|
    decreases |m|
  {
    if h :| h in m {
      var rest := m - {h};
      assert |rest| == |m| - 1 by {
        assert rest.Keys == m.Keys - {h};
        assert |m.Keys - {h}| == |m.Keys| - 1;
      }
      InjectiveCount(rest, ids - {m[h]});
      assert |ids - {m[h]}| == |ids| - 1;
    } else {
      assert m.Keys == {};
    }
  }

  ghost function Ids(low: nat, high: nat): (r: set<nat>)
    ensures forall x :: x in r <==> low <= x < high
    decreases high
  {
    if low >= high then {} else Ids(low, high - 1) + {high - 1}
  }

  /** Distinct ids from a range are no more than the range is long. */
  lemma FewIds(m: map<Hash, WireId>, low: nat, high: nat)
    requires Injective(m) && low <= high && (forall h :: h in m ==> low <= m[h] < high)
    ensures |m| <= high - low
  {
    RangeCount(Ids(low, high), low, high);
    InjectiveCount(m, Ids(low, high));
  }

  /** The entries of the id map that a balance keeps. */
  function Recent(m: map<Hash, WireId>, low: nat): map<Hash, WireId> {
    map h | h in m && m[h] >= low :: m[h]
  }

  // ----- the cache -----

  class PngCache {
    var cache: Cache
    var cacheSize: nat
    var cacheHits: nat
    var cacheTests: nat
    var nextId: WireId
    var hashToWid: map<Hash, WireId>
    /** Every id given to a hash since the ids last started over. */
    ghost var issued: set<(Hash, WireId)>
    /** What the picture of each hash encodes to, as far as that was seen. */
    ghost var content: map<Hash, seq<Byte>>

    ghost predicate Valid()
      reads this
    {
      && cacheSize == TotalSize(cache)
      && 0 !in content
      && (forall h :: h in cache ==> h in content && cache[h].data == content[h])
      && ValidIds()
    }

    ghost predicate ValidIds()
      reads this
    {
      && 1 <= nextId < WID_MODULUS
      && Injective(hashToWid)
      && (forall h :: h in hashToWid ==> (h, hashToWid[h]) in issued)
      && (forall p :: p in issued ==> p.1 <= nextId)
      && (forall p, q :: p in issued && q in issued && p.1 == q.1 ==> p.0 == q.0)
    }

    constructor ()
      ensures Valid() && cache == map[] && hashToWid == map[] && nextId == 1 && issued == {} && content == map[]
    {
      cache, hashToWid, cacheSize, cacheHits, cacheTests, nextId := map[], map[], 0, 0, 0, 1;
      issued, content := {}, map[];
    }

    /** kit/Kit.cpp:448-459. */
    method ClearCache()
      modifies this
      ensures cache == map[] && hashToWid == map[] && cacheSize == 0 && nextId == 1 && issued == {}
      ensures content == old(content)
    {
      cache := map[];
      hashToWid := map[];
      cacheSize := 0;
      cacheHits := 0;
      cacheTests := 0;
      nextId := 1;
      issued := {};
    }

    /** kit/Kit.cpp:461-469; the count is 32 bits wide and wraps. */
    method CreateNewWireId() returns (id: WireId)
      requires Valid()
      modifies this
      ensures old(nextId) + 1 < WID_MODULUS ==>
                id == nextId == old(nextId) + 1 && cache == old(cache) && cacheSize == old(cacheSize) &&
                hashToWid == old(hashToWid) && issued == old(issued)
      ensures old(nextId) + 1 == WID_MODULUS ==>
                && id == 0 && nextId == 1 && cacheSize == 0
                && cache == map[] && hashToWid == map[] && issued == {}
      ensures content == old(content)
    {
      nextId := (nextId + 1) % WID_MODULUS;
      id := nextId;
      if id < 1 {
        ClearCache();
      }
    }

    /** kit/Kit.cpp:592-606. */
    method HashToWireId(hash: Hash) returns (wid: WireId)
      requires Valid()
      modifies this
      ensures Valid() && content == old(content)
      ensures hash == 0 ==> wid == 0
      ensures hash != 0 ==> (hash, wid) in issued && hash in hashToWid && hashToWid[hash] == wid
      ensures hash != 0 && hash in old(hashToWid) ==> wid == old(hashToWid)[hash]
      ensures hash == 0 || hash in old(hashToWid) ==>
                hashToWid == old(hashToWid) && nextId == old(nextId) && issued == old(issued)
      ensures hash != 0 && hash !in old(hashToWid) && old(nextId) + 1 < WID_MODULUS ==>
                wid == nextId == old(nextId) + 1 && hashToWid == old(hashToWid)[hash := wid]
      ensures old(nextId) + 1 < WID_MODULUS ==>
                old(issued) <= issued && cache == old(cache) && nextId <= old(nextId) + 1
    {
      if hash == 0 {
        return 0;
      }
      if hash in hashToWid {
        wid := hashToWid[hash];
      } else {
        wid := CreateNewWireId();
        hashToWid := hashToWid[hash := wid];
        issued := issued + {(hash, wid)};
      }
    }

    /** An order in which a hash map is walked; nothing is known about it. */
    static method AnyOrder(keys: set<Hash>) returns (order: seq<Hash>)
      ensures IsOrder(order, keys)
    {
      order := [];
      var todo := keys;
      while todo != {}
        invariant todo <= keys && (forall k :: k in order <==> k in keys && k !in todo)
        invariant forall i, j :: 0 <= i < j < |order| ==> order[i] != order[j]
        decreases todo
      {
        var k :| k in todo;
        order := order + [k];
        todo := todo - {k};
      }
    }

    /** kit/Kit.cpp:474-505: entries are dropped in some order of the map. */
    method ShrinkCache()
      requires Valid() && cacheSize > HARD_LIMIT
      modifies this`cache, this`cacheSize
      ensures Valid()
      ensures Shrunk(old(cache), cache, cacheSize)
    {
      hide Walked, Trimmed, HitsOf, TotalSize, BarelyEnough;
      CacheNotEmpty(cache);
      SomeNotAboveAverage(cache);
      ghost var was := cache;
      var avgHits := SumHits();
      avgHits := avgHits / |cache|;
      var order := AnyOrder(cache.Keys);
      WalkBegins(cache, order, avgHits);
      var i := 0;
      while i < |order|
        invariant 0 <= i <= |order|
        invariant Walked(was, cache, cacheSize, order, i, avgHits) && IsOrder(order, was.Keys)
        invariant Trimmed(was, cache, cacheSize, order, i, avgHits)
      {
        var h := order[i];
        OneVisited(was, cache, cacheSize, order, i, avgHits);
        OneTrimmed(was, cache, cacheSize, order, i, avgHits);
        var entry := cache[h];
        if (cacheSize > SOFT_LIMIT && entry.hitCount == 0) ||
           (cacheSize > HARD_LIMIT && entry.hitCount > 0 && entry.hitCount <= avgHits) {
          cacheSize := cacheSize - |entry.data|;
          cache := cache - {h};
        } else if entry.hitCount > 0 {
          cache := cache[h := entry.(hitCount := entry.hitCount - 1)];
        }
        i := i + 1;
      }
      WalkEnds(was, cache, cacheSize, order, avgHits);
    }

    /** kit/Kit.cpp:476-478. */
    method SumHits() returns (hits: nat)
      ensures hits == HitsOf(cache, cache.Keys)
    {
      var order := AnyOrder(cache.Keys);
      hits := 0;
      ghost var todo := cache.Keys;
      for i := 0 to |order|
        invariant todo <= cache.Keys && (forall k :: k in todo <==> k in order[i..])
        invariant hits + HitsOf(cache, todo) == HitsOf(cache, cache.Keys)
      {
        HitsWithout(cache, todo, order[i]);
        hits := hits + cache[order[i]].hitCount;
        todo := todo - {order[i]};
      }
      assert todo == {};
    }

    /** kit/Kit.cpp:507-519: all but the latest ids are forgotten, in some order of the map. */
    method ForgetOldIds()
      requires Valid() && |hashToWid| > WID_LIMIT
      modifies this`hashToWid
      ensures Valid() && |hashToWid| <= WID_LIMIT
      ensures nextId >= WID_LIMIT / 2 && hashToWid == Recent(old(hashToWid), nextId - WID_LIMIT / 2)
    {
      FewIds(hashToWid, 0, nextId + 1);
      var max := nextId - WID_LIMIT / 2;
      hashToWid := KeepRecent(hashToWid, max);
      FewIds(hashToWid, max, nextId + 1);
    }

    /** kit/Kit.cpp:511-517: erasing while walking the map. */
    static method KeepRecent(ids: map<Hash, WireId>, max: nat) returns (kept: map<Hash, WireId>)
      ensures kept == Recent(ids, max)
    {
      kept := ids;
      var order := AnyOrder(ids.Keys);
      var i := 0;
      while i < |order|
        invariant 0 <= i <= |order|
        invariant forall h :: h in kept ==> h in ids && kept[h] == ids[h]
        invariant forall h :: h in ids && ids[h] >= max ==> h in kept
        invariant forall k :: 0 <= k < i && order[k] in kept ==> ids[order[k]] >= max
        invariant forall k :: i <= k < |order| ==> order[k] in kept
      {
        var h := order[i];
        if kept[h] < max {
          kept := kept - {h};
        }
        i := i + 1;
      }
      forall h | h in kept ensures ids[h] >= max {
        assert h in order;
        var k :| 0 <= k < |order| && order[k] == h;
      }
    }

    /** kit/Kit.cpp:470-520. */
    method BalanceCache()
      requires Valid()
      modifies this`cache, this`cacheSize, this`hashToWid
      ensures Valid() && |hashToWid| <= WID_LIMIT
      ensures Balanced(old(cache), old(cacheSize), cache, cacheSize)
      ensures Remembered(old(hashToWid), hashToWid, nextId)
    {
      hide Injective, Shrunk, TotalSize;
      if cacheSize > HARD_LIMIT {
        ShrinkCache();
      }
      if |hashToWid| > WID_LIMIT {
        ForgetOldIds();
      }
    }

    /** kit/Kit.cpp:524-545. */
    method CacheTest(hash: Hash, before: seq<Byte>) returns (hit: bool, output: seq<Byte>)
      requires Valid()
      modifies this`cache, this`cacheHits, this`cacheTests
      ensures Valid()
      ensures hit <==> hash != 0 && hash in old(cache)
      ensures output == if hit then before + content[hash] else before
      ensures cache ==
              if hit then old(cache)[hash := old(cache)[hash].(hitCount := old(cache)[hash].hitCount + 1)]
              else old(cache)
    {
      if hash != 0 {
        cacheTests := cacheTests + 1;
        if hash in cache {
          cacheHits := cacheHits + 1;
          output := before + cache[hash].data;
          SizeUpdated(cache, hash, cache[hash].(hitCount := cache[hash].hitCount + 1));
          cache := cache[hash := cache[hash].(hitCount := cache[hash].hitCount + 1)];
          return true, output;
        }
      }
      return false, before;
    }

    /** kit/Kit.cpp:567-574. */
    method Store(hash: Hash, entry: CacheEntry)
      requires Valid() && hash !in cache && hash != 0 && (hash in content ==> entry.data == content[hash])
      modifies this`cache, this`cacheSize, this`content
      ensures Valid() && content == old(content)[hash := entry.data]
      ensures cache == old(cache)[hash := entry] && cacheSize == old(cacheSize) + |entry.data|
    {
      hide Injective, TotalSize;
      SizeAdded(cache, hash, entry);
      content := content[hash := entry.data];
      cache := cache[hash := entry];
      cacheSize := cacheSize + |entry.data|;
    }

    /** kit/Kit.cpp:546-584, where png is what the encoder makes of the picture, if anything. */
    method CacheEncode(hash: Hash, wid: WireId, png: Option<seq<Byte>>, before: seq<Byte>)
      returns (ok: bool, output: seq<Byte>)
      requires Valid() && hash !in cache
      requires hash in content && png.Some? ==> png.value == content[hash]
      modifies this`cache, this`cacheSize, this`hashToWid, this`content
      ensures Valid() && ok == png.Some?
      ensures output == if ok then before + png.value else before
      ensures content == if ok && hash != 0 then old(content)[hash := png.value] else old(content)
      ensures ok ==> |hashToWid| <= WID_LIMIT && Remembered(old(hashToWid), hashToWid, nextId)
      ensures ok ==>
                Balanced(Stored(old(cache), hash, wid, png.value), old(cacheSize) + StoredSize(hash, png.value),
                         cache, cacheSize)
      ensures !ok ==> cache == old(cache) && hashToWid == old(hashToWid)
    {
      hide Injective, TotalSize, ValidIds, Balanced, Remembered, TotalSize;
      if png.None? {
        return false, before;
      }
      var newEntry := CacheEntry(1, wid, png.value);
      if hash != 0 {
        Store(hash, newEntry);
      }
      output := before + newEntry.data;
      BalanceCache();
      return true, output;
    }

    /** kit/Kit.cpp:620-632: the picture of a hash is appended, from the cache or encoded. */
    method EncodeSubBufferToPNG(hash: Hash, wid: WireId, png: Option<seq<Byte>>, before: seq<Byte>)
      returns (ok: bool, output: seq<Byte>)
      requires Valid()
      requires hash in content && png.Some? ==> png.value == content[hash]
      modifies this`cache, this`cacheSize, this`cacheHits, this`cacheTests, this`hashToWid, this`content
      ensures Valid()
      ensures ok <==> png.Some? || (hash != 0 && hash in old(cache))
      ensures ok ==> (hash != 0 ==> hash in content) && (hash == 0 ==> png.Some?) &&
                     output == before + if hash != 0 then content[hash] else png.value
      ensures !ok ==> output == before
      ensures forall h :: h in old(content) ==> h in content && content[h] == old(content)[h]
      ensures forall h :: h in content ==> h in old(content) || (h == hash && png.Some?)
      ensures ok && hash != 0 && png.Some? ==> content[hash] == png.value
      ensures hash != 0 && hash in old(cache) ==>
                cache == old(cache)[hash := old(cache)[hash].(hitCount := old(cache)[hash].hitCount + 1)]
      ensures (hash == 0 || hash !in old(cache)) && png.Some? ==>
                Balanced(Stored(old(cache), hash, wid, png.value), old(cacheSize) + StoredSize(hash, png.value),
                         cache, cacheSize)
    {
      hide Injective, TotalSize, ValidIds, Balanced, Remembered;
      var hit;
      hit, output := CacheTest(hash, before);
      if hit {
        return true, output;
      }
      ok, output := CacheEncode(hash, wid, png, before);
    }
  }

  ghost predicate IsOrder(order: seq<Hash>, keys: set<Hash>) {
    && (forall k :: k in order <==> k in keys)
    && (forall i, j :: 0 <= i < j < |order| ==> order[i] != order[j])
  }

  ghost function Average(cache: Cache): nat
    requires cache != map[]
  {
    assert |cache.Keys| > 0 by { assert cache.Keys != {}; }
    HitsOf(cache, cache.Keys) / |cache|
  }

  /** What shrinking leaves of a cache: at least one entry goes and none that was hit more than
      average, with one more of them it would be over the soft limit, and either it is at or under
      the hard limit or has only entries left that were hit more than average. */
  ghost predicate Shrunk(was: Cache, cache: Cache, size: nat) {
    && was != map[] && cache.Keys < was.Keys
    && (forall h :: h in cache ==>
          && cache[h].data == was[h].data && cache[h].wireId == was[h].wireId
          && cache[h].hitCount == OneLess(was[h].hitCount))
    && (forall h :: h in was && h !in cache ==> was[h].hitCount <= Average(was))
    && (size <= HARD_LIMIT || forall h :: h in cache ==> was[h].hitCount > Average(was))
    && BarelyEnough(was, cache, size)
  }

  /** What balancing leaves of a cache of some size. */
  ghost predicate Balanced(was: Cache, wasSize: nat, cache: Cache, size: nat) {
    if wasSize <= HARD_LIMIT then cache == was && size == wasSize else Shrunk(was, cache, size)
  }

  /** What balancing leaves of the ids. */
  ghost predicate Remembered(was: map<Hash, WireId>, ids: map<Hash, WireId>, nextId: WireId) {
    if |was| <= WID_LIMIT then ids == was
    else nextId >= WID_LIMIT / 2 && ids == Recent(was, nextId - WID_LIMIT / 2)
  }

  function Stored(cache: Cache, hash: Hash, wid: WireId, png: seq<Byte>): Cache {
    if hash != 0 then cache[hash := CacheEntry(1, wid, png)] else cache
  }

  function StoredSize(hash: Hash, png: seq<Byte>): nat {
    if hash != 0 then |png| else 0
  }

  /** A cache while it is walked: what is ahead is as it was, and data never changes; as long
      as it is too big, what was passed and kept had been hit more than average, and nothing
      is gone as long as the size is as it was. */
  ghost predicate Walked(was: Cache, cache: Cache, size: nat, order: seq<Hash>, i: nat, avg: nat) {
    && IsOrder(order, was.Keys) && i <= |order|
    && cache.Keys <= was.Keys
    && size == TotalSize(cache) <= TotalSize(was)
    && (forall k :: i <= k < |order| ==> order[k] in cache && cache[order[k]] == was[order[k]])
    && (forall h :: h in cache ==> cache[h].data == was[h].data && cache[h].wireId == was[h].wireId)
    && (size > HARD_LIMIT ==> forall k :: 0 <= k < i && order[k] in cache ==> was[order[k]].hitCount > avg)
    && (cache.Keys == was.Keys ==> size == TotalSize(was))
  }

  /** What was passed and kept has one hit less, and nothing went without need. */
  ghost predicate Trimmed(was: Cache, cache: Cache, size: nat, order: seq<Hash>, i: nat, avg: nat)
    requires IsOrder(order, was.Keys) && i <= |order|
  {
    && (forall h :: h in was && h !in cache ==> was[h].hitCount <= avg)
    && (forall k :: 0 <= k < i && order[k] in cache ==> cache[order[k]].hitCount == OneLess(was[order[k]].hitCount))
    && (cache.Keys != was.Keys ==> BarelyEnough(was, cache, size))
  }

  function OneLess(hits: nat): nat {
    if hits > 0 then hits - 1 else 0
  }

  /** With one more of the entries that are gone, the cache would be over the soft limit. */
  ghost predicate BarelyEnough(was: Cache, cache: Cache, size: nat) {
    exists h :: h in was && h !in cache && size + |was[h].data| > SOFT_LIMIT
  }

  lemma WalkBegins(cache: Cache, order: seq<Hash>, avg: nat)
    requires IsOrder(order, cache.Keys)
    ensures Walked(cache, cache, TotalSize(cache), order, 0, avg)
    ensures Trimmed(cache, cache, TotalSize(cache), order, 0, avg)
  {
  }

  /** What is done to the entry of one hash, with the size afterwards. */
  function Visit(cache: Cache, size: nat, h: Hash, avg: nat): (Cache, int)
    requires h in cache
  {
    var entry := cache[h];
    if (size > SOFT_LIMIT && entry.hitCount == 0)
       || (size > HARD_LIMIT && entry.hitCount > 0 && entry.hitCount <= avg) then
      (cache - {h}, size - |entry.data|)
    else if entry.hitCount > 0 then (cache[h := entry.(hitCount := entry.hitCount - 1)], size)
    else (cache, size)
  }

  lemma OneVisited(was: Cache, cache: Cache, size: nat, order: seq<Hash>, i: nat, avg: nat)
    requires Walked(was, cache, size, order, i, avg) && i < |order|
    ensures order[i] in cache
    ensures var (after, left) := Visit(cache, size, order[i], avg);
            left >= 0 && Walked(was, after, left, order, i + 1, avg)
  {
    hide TotalSize;
    var h := order[i];
    var entry := cache[h];
    SizeRemoved(cache, h);
    if entry.hitCount > 0 {
      SizeUpdated(cache, h, entry.(hitCount := entry.hitCount - 1));
    }
    var (after, left) := Visit(cache, size, h, avg);
    if h !in after {
      assert after.Keys != was.Keys;
    }
  }

  lemma OneTrimmed(was: Cache, cache: Cache, size: nat, order: seq<Hash>, i: nat, avg: nat)
    requires Walked(was, cache, size, order, i, avg) && i < |order| && Trimmed(was, cache, size, order, i, avg)
    ensures order[i] in cache
    ensures var (after, left) := Visit(cache, size, order[i], avg);
            left >= 0 ==> Trimmed(was, after, left, order, i + 1, avg)
  {
    var h := order[i];
    assert h in cache && cache[h] == was[h];
    hide TotalSize, Walked;
    var (after, left) := Visit(cache, size, h, avg);
    if h !in after && left >= 0 {
      assert h in was && left + |was[h].data| > SOFT_LIMIT;
      assert BarelyEnough(was, after, left);
    }
  }

  lemma WalkEnds(was: Cache, cache: Cache, size: nat, order: seq<Hash>, avg: nat)
    requires Walked(was, cache, size, order, |order|, avg) && Trimmed(was, cache, size, order, |order|, avg)
    requires was != map[] && TotalSize(was) > HARD_LIMIT && avg == Average(was)
    ensures cache.Keys < was.Keys && size == TotalSize(cache)
    ensures forall h :: h in cache ==> cache[h].data == was[h].data && cache[h].wireId == was[h].wireId
    ensures size > HARD_LIMIT ==> forall h :: h in cache ==> was[h].hitCount > avg
    ensures forall h :: h in cache ==> cache[h].hitCount == OneLess(was[h].hitCount)
    ensures forall h :: h in was && h !in cache ==> was[h].hitCount <= avg
    ensures BarelyEnough(was, cache, size)
  {
    hide TotalSize, BarelyEnough;
    forall h | h in cache ensures cache[h].hitCount == OneLess(was[h].hitCount) {
      assert h in order;
      var k :| 0 <= k < |order| && order[k] == h;
    }
    assert size > HARD_LIMIT ==> forall h :: h in cache ==> was[h].hitCount > avg by {
      if size > HARD_LIMIT {
        forall h | h in cache ensures was[h].hitCount > avg {
          assert h in order;
          var k :| 0 <= k < |order| && order[k] == h;
        }
      }
    }
    SomeNotAboveAverage(was);
    var k :| k in was && was[k].hitCount <= avg;
    assert k in cache ==> size <= HARD_LIMIT;
  }

  lemma CacheNotEmpty(cache: Cache)
    requires TotalSize(cache) > 0
    ensures cache != map[] && |cache| > 0
  {
    assert cache.Keys != {};
    assert |cache.Keys| > 0;
  }

  /** A rendered tile: the hash of its pixels, what they encode to, and whether that works. */
  datatype Rendered = Rendered(hash: Hash, png: seq<Byte>, encodes: bool)

  /** Hashes do not collide: one hash, one picture. */
  ghost predicate NoCollision(tiles: seq<Rendered>) {
    forall i, j :: 0 <= i < |tiles| && 0 <= j < |tiles| && tiles[i].hash == tiles[j].hash ==>
        tiles[i].png == tiles[j].png
  }

  predicate IsPicture(picture: Option<seq<Byte>>, tile: Rendered) {
    if picture.Some? then picture.value == tile.png else !tile.encodes
  }

  /** Every picture that was seen is that of one of the first tiles. */
  ghost predicate Seen(content: map<Hash, seq<Byte>>, tiles: seq<Rendered>, n: nat)
    requires n <= |tiles|
  {
    forall h :: h in content ==> exists i :: 0 <= i < n && tiles[i].hash == h && tiles[i].png == content[h]
  }

  /** The first tiles have the ids that were issued for their hashes. */
  ghost predicate Given(issued: set<(Hash, WireId)>, tiles: seq<Rendered>, wids: seq<WireId>)
    requires |wids| <= |tiles|
  {
    forall i :: 0 <= i < |wids| && tiles[i].hash != 0 ==> (tiles[i].hash, wids[i]) in issued
  }

  /** No id was issued for two hashes. */
  ghost predicate Unambiguous(issued: set<(Hash, WireId)>) {
    forall p, q :: p in issued && q in issued && p.1 == q.1 ==> p.0 == q.0
  }

  lemma NothingGiven(tiles: seq<Rendered>)
    ensures Seen(map[], tiles, 0) && Given({}, tiles, [])
  {
  }

  lemma GivenOnce(issued: set<(Hash, WireId)>, tiles: seq<Rendered>, wids: seq<WireId>)
    requires |wids| <= |tiles| && Given(issued, tiles, wids) && Unambiguous(issued)
    ensures forall i, j ::
              0 <= i < |wids| && 0 <= j < |wids| && wids[i] == wids[j] && tiles[i].hash != 0 && tiles[j].hash != 0 ==>
              tiles[i].hash == tiles[j].hash
  {
  }

  lemma GivenMore(before: set<(Hash, WireId)>, issued: set<(Hash, WireId)>, tiles: seq<Rendered>, wids: seq<WireId>,
                  wid: WireId)
    requires |wids| < |tiles| && Given(before, tiles, wids) && before <= issued
    requires tiles[|wids|].hash != 0 ==> (tiles[|wids|].hash, wid) in issued
    ensures Given(issued, tiles, wids + [wid])
  {
  }

  lemma SeenAgrees(content: map<Hash, seq<Byte>>, tiles: seq<Rendered>, n: nat)
    requires n < |tiles| && Seen(content, tiles, n) && NoCollision(tiles) && tiles[n].hash in content
    ensures content[tiles[n].hash] == tiles[n].png
  {
    var i :| 0 <= i < n && tiles[i].hash == tiles[n].hash && tiles[i].png == content[tiles[n].hash];
  }

  lemma SeenMore(before: map<Hash, seq<Byte>>, content: map<Hash, seq<Byte>>, tiles: seq<Rendered>, n: nat)
    requires n < |tiles| && Seen(before, tiles, n)
    requires forall h :: h in content ==> h in before || h == tiles[n].hash
    requires forall h :: h in before ==> h in content && content[h] == before[h]
    requires tiles[n].hash in content ==> content[tiles[n].hash] == tiles[n].png
    ensures Seen(content, tiles, n + 1)
  {
    forall h | h in content ensures exists i :: 0 <= i < n + 1 && tiles[i].hash == h && tiles[i].png == content[h] {
      if h in before {
        var i :| 0 <= i < n && tiles[i].hash == h && tiles[i].png == before[h];
        assert tiles[i].png == content[h];
      } else {
        assert tiles[n].hash == h;
      }
    }
  }

  /** Any run that renders fewer tiles than there are ids: one id is never given to two hashes,
      evictions and forgotten ids notwithstanding, and each tile comes out as its own picture, or
      not at all if it does not encode. */
  method RenderRun(tiles: seq<Rendered>) returns (wids: seq<WireId>, pictures: seq<Option<seq<Byte>>>)
    requires NoCollision(tiles) && |tiles| + 1 < WID_MODULUS
    ensures |wids| == |tiles| == |pictures|
    ensures forall i, j ::
              0 <= i < |tiles| && 0 <= j < |tiles| && wids[i] == wids[j] && tiles[i].hash != 0 && tiles[j].hash != 0 ==>
              tiles[i].hash == tiles[j].hash
    ensures forall i :: 0 <= i < |tiles| ==> IsPicture(pictures[i], tiles[i])
  {
    hide Injective, TotalSize, Seen, Given, NoCollision;
    var cache := new PngCache();
    wids, pictures := [], [];
    NothingGiven(tiles);
    for n := 0 to |tiles|
      invariant |wids| == |pictures| == n && fresh(cache)
      invariant cache.Valid() && cache.nextId <= n + 1
      invariant Given(cache.issued, tiles, wids)
      invariant Seen(cache.content, tiles, n)
      invariant forall i :: 0 <= i < n ==> IsPicture(pictures[i], tiles[i])
    {
      var wid, picture := RenderOne(cache, tiles, n, wids);
      wids, pictures := wids + [wid], pictures + [picture];
    }
    assert Unambiguous(cache.issued);
    GivenOnce(cache.issued, tiles, wids);
  }

  method RenderOne(cache: PngCache, tiles: seq<Rendered>, n: nat, ghost wids: seq<WireId>)
    returns (wid: WireId, picture: Option<seq<Byte>>)
    requires cache.Valid() && cache.nextId + 1 < WID_MODULUS && n == |wids| < |tiles| && NoCollision(tiles)
    requires Given(cache.issued, tiles, wids) && Seen(cache.content, tiles, n)
    modifies cache
    ensures cache.Valid() && cache.nextId <= old(cache.nextId) + 1
    ensures Given(cache.issued, tiles, wids + [wid])
    ensures Seen(cache.content, tiles, n + 1)
    ensures IsPicture(picture, tiles[n])
  {
    hide Injective, TotalSize, Seen, Given, NoCollision;
    var tile := tiles[n];
    ghost var issued := cache.issued;
    wid := cache.HashToWireId(tile.hash);
    GivenMore(issued, cache.issued, tiles, wids, wid);
    ghost var seen := cache.content;
    if tile.hash in seen {
      SeenAgrees(seen, tiles, n);
    }
    var png := if tile.encodes then Some(tile.png) else None;
    var ok, output := cache.EncodeSubBufferToPNG(tile.hash, wid, png, []);
    assert [] + tile.png == tile.png;
    SeenMore(seen, cache.content, tiles, n);
    picture := if ok then Some(output) else None;
  }
}
