/** The pictures of windows: the list that kit/ChildSession.cpp keeps of those it takes the
    client to hold, and the cache that loleaflet/src/layer/tile/TileLayer.js does hold.  A
    picture of the list is announced by its hash alone. */
module PixmapCache {
  import opened Basics

  type Picture = seq<Byte>

  /** LOKitHelper::tunnelled_dialog_image_cache_size. */
  const CACHE_SIZE := 100

  // ----- what the list should be -----

  function Without(s: seq<nat>, x: nat): (r: seq<nat>)
    ensures |r| <= |s|
    ensures forall y :: y in r <==> y in s && y != x
  {
    if s == [] then [] else (if s[0] == x then [] else [s[0]]) + Without(s[1..], x)
  }

  /** The distinct hashes of a history of paints, the latest use first. */
  function ByLastUse(history: seq<nat>): seq<nat> {
    if history == [] then []
    else
      var n := |history| - 1;
      [history[n]] + Without(ByLastUse(history[..n]), history[n])
  }

  function First(s: seq<nat>): seq<nat> {
    if |s| <= CACHE_SIZE then s else s[..CACHE_SIZE]
  }

  ghost predicate Distinct(s: seq<nat>) {
    forall i, j :: 0 <= i < j < |s| ==> s[i] != s[j]
  }

  /** The time of the last use of a hash, counted from 1; 0 when it was never used. */
  function LastUse(history: seq<nat>, x: nat): nat {
    if history == [] then 0
    else if history[|history| - 1] == x then |history|
    else LastUse(history[..|history| - 1], x)
  }

  // ----- one paint -----

  /** kit/ChildSession.cpp:1329-1346 on the list alone. */
  function Touch(cache: seq<nat>, hash: nat): seq<nat> {
    if cache != [] && cache[0] == hash then cache
    else if hash in cache then [hash] + Without(cache, hash)
    else if |cache| == CACHE_SIZE then [hash] + cache[..CACHE_SIZE - 1]
    else [hash] + cache
  }

  /** What the client is told of a paint: nothing when the picture did not encode, the hash
      alone, or the hash and the picture. */
  datatype Answer = Nothing | NoPng | Png(picture: Picture)

  function AnswerTo(list: seq<nat>, hash: nat, png: Option<Picture>): Answer {
    if hash in list then NoPng else if png.Some? then Png(png.value) else Nothing
  }

  class ChildSession {
    var pixmapCache: seq<nat>
    ghost var history: seq<nat>

    ghost predicate Valid()
      reads this
    {
      pixmapCache == First(ByLastUse(history))
    }

    constructor ()
      ensures Valid() && history == []
    {
      pixmapCache, history := [], [];
    }

    /** std::find. */
    method Find(hash: nat) returns (found: nat)
      ensures found <= |pixmapCache|
      ensures forall k :: 0 <= k < found ==> pixmapCache[k] != hash
      ensures found < |pixmapCache| ==> pixmapCache[found] == hash
    {
      found := 0;
      while found < |pixmapCache| && pixmapCache[found] != hash
        invariant found <= |pixmapCache|
        invariant forall k :: 0 <= k < found ==> pixmapCache[k] != hash
      {
        found := found + 1;
      }
    }

    /** kit/ChildSession.cpp:1317-1402: the hash enters the list before the picture is encoded. */
    method RenderWindow(hash: nat, png: Option<Picture>) returns (answer: Answer)
      requires Valid()
      modifies this
      ensures Valid() && history == old(history) + [hash]
      ensures answer == AnswerTo(First(ByLastUse(old(history))), hash, png)
      ensures |pixmapCache| <= CACHE_SIZE && pixmapCache[..1] == [hash]
    {
      CacheFacts(history);
      var found := Find(hash);
      var doPng := found == |pixmapCache|;
      if |pixmapCache| > 0 {
        if found != 0 {
          if found != |pixmapCache| {
            WithoutAt(pixmapCache, found);
            pixmapCache := pixmapCache[..found] + pixmapCache[found + 1..];
          } else if |pixmapCache| == CACHE_SIZE {
            pixmapCache := pixmapCache[..|pixmapCache| - 1];
          }
          pixmapCache := [hash] + pixmapCache;
        }
      } else {
        pixmapCache := [hash] + pixmapCache;
      }
      TouchKeepsFirst(history, hash);
      history := history + [hash];
      if !doPng {
        return NoPng;
      }
      match png {
        case None => return Nothing;
        case Some(picture) => return Png(picture);
      }
    }
  }

  // ----- the client -----

  /** A picture the client keeps under a hash; it keeps an absent one as well. */
  datatype Entry = Entry(hash: nat, img: Option<Picture>)

  function HashesOf(cache: seq<Entry>): (r: seq<nat>)
    ensures |r| == |cache| && forall k :: 0 <= k < |r| ==> r[k] == cache[k].hash
  {
    seq(|cache|, k requires 0 <= k < |cache| => cache[k].hash)
  }

  /** The place of a hash in the client's cache, or its length. */
  function PlaceOf(cache: seq<Entry>, hash: nat): (k: nat)
    ensures k <= |cache| && (k < |cache| ==> cache[k].hash == hash)
    ensures forall i :: 0 <= i < k ==> cache[i].hash != hash
  {
    if cache == [] || cache[0].hash == hash then 0 else 1 + PlaceOf(cache[1..], hash)
  }

  /** What is shown when a hash comes in, with a picture or without: the picture that is kept
      under the hash, whether it is absent or not, rather than the one that came in. */
  function Showing(cache: seq<Entry>, hash: nat, img: Option<Picture>): Option<Picture> {
    var k := PlaceOf(cache, hash);
    if k < |cache| then cache[k].img else img
  }

  function CacheAfter(cache: seq<Entry>, hash: nat, img: Option<Picture>): seq<Entry> {
    var k := PlaceOf(cache, hash);
    var others := if k < |cache| then cache[..k] + cache[k + 1..] else cache;
    [Entry(hash, Showing(cache, hash, img))] + if |others| == CACHE_SIZE then others[..CACHE_SIZE - 1] else others
  }

  class TileLayer {
    var pngCache: seq<Entry>

    constructor ()
      ensures pngCache == []
    {
      pngCache := [];
    }

    /** loleaflet/src/layer/tile/TileLayer.js:1663-1681. */
    method OnDialogPaintMsg(hash: nat, img: Option<Picture>) returns (shown: Option<Picture>)
      modifies this
      ensures shown == Showing(old(pngCache), hash, img)
      ensures pngCache == CacheAfter(old(pngCache), hash, img)
    {
      shown := img;
      var i := 0;
      while i < |pngCache| && pngCache[i].hash != hash
        invariant i <= |pngCache| && forall k :: 0 <= k < i ==> pngCache[k].hash != hash
      {
        i := i + 1;
      }
      PlaceIs(pngCache, hash, i);
      if i < |pngCache| {
        shown := pngCache[i].img;
        pngCache := pngCache[..i] + pngCache[i + 1..];
      }
      if |pngCache| == CACHE_SIZE {
        pngCache := pngCache[..|pngCache| - 1];
      }
      pngCache := [Entry(hash, shown)] + pngCache;
    }
  }

  lemma PlaceIs(cache: seq<Entry>, hash: nat, i: nat)
    requires i <= |cache| && (i < |cache| ==> cache[i].hash == hash)
    requires forall k :: 0 <= k < i ==> cache[k].hash != hash
    ensures PlaceOf(cache, hash) == i
  {
    var k := PlaceOf(cache, hash);
    assert !(k < i) && !(i < k);
  }

  // ----- both ends over a run of paints -----

  /** A paint of a window: what it hashes to and what it encodes to, if it does. */
  datatype Paint = Paint(hash: nat, png: Option<Picture>)

  function Hashes(paints: seq<Paint>): (r: seq<nat>)
    ensures |r| == |paints| && forall k :: 0 <= k < |r| ==> r[k] == paints[k].hash
  {
    if paints == [] then [] else Hashes(paints[..|paints| - 1]) + [paints[|paints| - 1].hash]
  }

  /** What the client is told of paint n. */
  function Told(paints: seq<Paint>, n: nat): Answer
    requires n < |paints|
  {
    AnswerTo(First(ByLastUse(Hashes(paints[..n]))), paints[n].hash, paints[n].png)
  }

  function Image(answer: Answer): Option<Picture> {
    if answer.Png? then Some(answer.picture) else None
  }

  /** The hashes of the paints that the client is told of. */
  function Heard(paints: seq<Paint>): seq<nat> {
    if paints == [] then []
    else
      var n := |paints| - 1;
      Heard(paints[..n]) + if Told(paints, n) == Nothing then [] else [paints[n].hash]
  }

  function ClientCache(paints: seq<Paint>): seq<Entry> {
    if paints == [] then []
    else
      var n := |paints| - 1;
      var before := ClientCache(paints[..n]);
      if Told(paints, n) == Nothing then before else CacheAfter(before, paints[n].hash, Image(Told(paints, n)))
  }

  /** What the client shows for paint n. */
  function Shown(paints: seq<Paint>, n: nat): Option<Picture>
    requires n < |paints|
  {
    Showing(ClientCache(paints[..n]), paints[n].hash, Image(Told(paints, n)))
  }

  /** Paints of the same hash look the same. */
  ghost predicate NoCollision(paints: seq<Paint>, pictures: nat -> Picture) {
    forall n :: 0 <= n < |paints| && paints[n].png.Some? ==> paints[n].png.value == pictures(paints[n].hash)
  }

  /** Whatever the client is told of, it shows. */
  ghost predicate AllShown(paints: seq<Paint>, pictures: nat -> Picture) {
    forall n :: 0 <= n < |paints| && Told(paints, n) != Nothing ==> Shown(paints, n) == Some(pictures(paints[n].hash))
  }

  /** Each hash that is announced alone is one of the latest that the client was told of. */
  ghost predicate AllHeld(paints: seq<Paint>) {
    forall n :: 0 <= n < |paints| && Told(paints, n) == NoPng ==> HeldAt(paints, n)
  }

  predicate HeldAt(paints: seq<Paint>, n: nat)
    requires n < |paints|
  {
    paints[n].hash in First(ByLastUse(Heard(paints[..n])))
  }

  // ----- lemmas -----

  lemma {:induction false} WithoutAbsent(s: seq<nat>, x: nat)
    requires x !in s
    ensures Without(s, x) == s
  {
    if s != [] {
      WithoutAbsent(s[1..], x);
      assert s == [s[0]] + s[1..];
    }
  }

  lemma {:induction false} WithoutAt(s: seq<nat>, k: nat)
    requires Distinct(s) && k < |s|
    ensures Without(s, s[k]) == s[..k] + s[k + 1..]
  {
    var rest := s[1..];
    if k == 0 {
      assert s[0] !in rest;
      WithoutAbsent(rest, s[0]);
    } else {
      assert rest[k - 1] == s[k];
      WithoutAt(rest, k - 1);
      assert s[..k] == [s[0]] + rest[..k - 1] && s[k + 1..] == rest[k..];
    }
  }

  lemma {:induction false} WithoutDistinct(s: seq<nat>, x: nat)
    requires Distinct(s)
    ensures Distinct(Without(s, x))
  {
    if k: nat :| k < |s| && s[k] == x {
      WithoutAt(s, k);
    } else {
      WithoutAbsent(s, x);
    }
  }

  /** No hash twice, and exactly those that were used. */
  lemma {:induction false} ByLastUseDistinct(history: seq<nat>)
    ensures Distinct(ByLastUse(history))
    ensures forall x :: x in ByLastUse(history) <==> x in history
  {
    if history != [] {
      var n := |history| - 1;
      ByLastUseDistinct(history[..n]);
      WithoutDistinct(ByLastUse(history[..n]), history[n]);
      ConsDistinct(history[n], Without(ByLastUse(history[..n]), history[n]));
    }
  }

  lemma ConsDistinct(x: nat, s: seq<nat>)
    requires Distinct(s) && x !in s
    ensures Distinct([x] + s)
  {
    forall i, j | 0 <= i < j < |s| + 1 ensures ([x] + s)[i] != ([x] + s)[j] {
      assert s[j - 1] in s;
    }
  }

  lemma {:induction false} WithoutOrder(s: seq<nat>, x: nat, i: nat, j: nat) returns (i': nat, j': nat)
    requires i < j < |Without(s, x)|
    ensures i' < j' < |s| && s[i'] == Without(s, x)[i] && s[j'] == Without(s, x)[j]
  {
    var r := Without(s[1..], x);
    if s[0] == x {
      i', j' := WithoutOrder(s[1..], x, i, j);
      i', j' := i' + 1, j' + 1;
    } else if i == 0 {
      var y := r[j - 1];
      assert y in s[1..];
      var k :| 0 <= k < |s[1..]| && s[1..][k] == y;
      i', j' := 0, k + 1;
    } else {
      i', j' := WithoutOrder(s[1..], x, i - 1, j - 1);
      i', j' := i' + 1, j' + 1;
    }
  }

  /** The order is that of the last uses. */
  lemma {:induction false} ByLastUseOrdered(history: seq<nat>, i: nat, j: nat)
    requires i < j < |ByLastUse(history)|
    ensures LastUse(history, ByLastUse(history)[i]) > LastUse(history, ByLastUse(history)[j])
  {
    hide Without, Distinct;
    var n := |history| - 1;
    var before, last := history[..n], history[n];
    var rest := Without(ByLastUse(before), last);
    var all := ByLastUse(history);
    assert all == [last] + rest;
    assert all[j] == rest[j - 1] && rest[j - 1] in rest;
    if i == 0 {
      LastUseBounded(before, rest[j - 1]);
    } else {
      assert all[i] == rest[i - 1] && rest[i - 1] in rest;
      var i', j' := WithoutOrder(ByLastUse(before), last, i - 1, j - 1);
      ByLastUseOrdered(before, i', j');
    }
  }

  lemma {:induction false} LastUseBounded(history: seq<nat>, x: nat)
    ensures LastUse(history, x) <= |history|
  {
    if history != [] {
      LastUseBounded(history[..|history| - 1], x);
    }
  }

  lemma CacheFacts(history: seq<nat>)
    ensures Distinct(First(ByLastUse(history)))
  {
    ByLastUseDistinct(history);
  }

  /** Cutting the list short at every paint loses nothing the full list would still show. */
  lemma TouchKeepsFirst(history: seq<nat>, hash: nat)
    ensures Touch(First(ByLastUse(history)), hash) == First(ByLastUse(history + [hash]))
  {
    hide First, Touch, Without;
    ByLastUseDistinct(history);
    assert (history + [hash])[..|history|] == history;
    TouchFirst(ByLastUse(history), hash);
  }

  lemma TouchFirst(all: seq<nat>, hash: nat)
    requires Distinct(all)
    ensures Touch(First(all), hash) == First([hash] + Without(all, hash))
  {
    if k: nat :| k < |all| && all[k] == hash {
      TouchPresent(all, k);
    } else {
      WithoutAbsent(all, hash);
    }
  }

  lemma TouchPresent(all: seq<nat>, k: nat)
    requires Distinct(all) && k < |all|
    ensures Touch(First(all), all[k]) == First([all[k]] + Without(all, all[k]))
  {
    hide Without, Distinct;
    WithoutAt(all, k);
    var moved := [all[k]] + (all[..k] + all[k + 1..]);
    if k == 0 {
      assert moved == all;
    } else if k < CACHE_SIZE {
      TouchShown(all, k);
    } else {
      TouchCutOff(all, k);
    }
  }

  /** The hash is in the list as it was cut, but not at the front. */
  lemma TouchShown(all: seq<nat>, k: nat)
    requires Distinct(all) && 0 < k < |all| && k < CACHE_SIZE
    ensures Touch(First(all), all[k]) == First([all[k]] + (all[..k] + all[k + 1..]))
  {
    hide Without;
    var cache := First(all);
    WithoutAt(cache, k);
    assert cache[k] == all[k] && cache[0] == all[0];
    assert cache[..k] == all[..k];
    var moved := [all[k]] + (all[..k] + all[k + 1..]);
    assert |moved| == |all|;
    assert First(moved) == [all[k]] + (cache[..k] + cache[k + 1..]);
  }

  /** The hash had been cut off the end. */
  lemma TouchCutOff(all: seq<nat>, k: nat)
    requires Distinct(all) && CACHE_SIZE <= k < |all|
    ensures Touch(First(all), all[k]) == First([all[k]] + (all[..k] + all[k + 1..]))
  {
    hide Without;
    assert all[k] !in all[..CACHE_SIZE];
    var moved := [all[k]] + (all[..k] + all[k + 1..]);
    assert moved[..CACHE_SIZE] == [all[k]] + all[..CACHE_SIZE][..CACHE_SIZE - 1];
  }

  // ----- what the client shows -----

  lemma TouchAt(list: seq<nat>, k: nat)
    requires Distinct(list) && k < |list|
    ensures Touch(list, list[k]) == [list[k]] + (list[..k] + list[k + 1..])
  {
    WithoutAt(list, k);
    hide Without, Distinct;
    if k == 0 {
      assert list == [list[0]] + ([] + list[1..]);
    } else {
      assert list[0] != list[k];
    }
  }

  lemma HashesApart(cache: seq<Entry>, k: nat, e: Entry)
    requires k < |cache|
    ensures HashesOf([e] + (cache[..k] + cache[k + 1..])) ==
            [e.hash] + (HashesOf(cache)[..k] + HashesOf(cache)[k + 1..])
  {
  }

  lemma HashesMore(cache: seq<Entry>, e: Entry, n: nat)
    requires n <= |cache|
    ensures HashesOf([e] + cache[..n]) == [e.hash] + HashesOf(cache)[..n]
  {
  }

  lemma TouchAbsent(list: seq<nat>, hash: nat)
    requires hash !in list
    ensures Touch(list, hash) == [hash] + list[..if |list| == CACHE_SIZE then CACHE_SIZE - 1 else |list|]
  {
    assert list[..|list|] == list;
  }

  lemma AfterPresent(cache: seq<Entry>, hash: nat, img: Option<Picture>)
    requires |cache| <= CACHE_SIZE && PlaceOf(cache, hash) < |cache|
    ensures var k := PlaceOf(cache, hash);
            CacheAfter(cache, hash, img) == [Entry(hash, Showing(cache, hash, img))] + (cache[..k] + cache[k + 1..])
  {
    hide Showing;
  }

  lemma AfterAbsent(cache: seq<Entry>, hash: nat, img: Option<Picture>)
    requires |cache| <= CACHE_SIZE && PlaceOf(cache, hash) == |cache|
    ensures CacheAfter(cache, hash, img) ==
            [Entry(hash, Showing(cache, hash, img))] +
            cache[..if |cache| == CACHE_SIZE then CACHE_SIZE - 1 else |cache|]
  {
    hide Showing;
    assert cache[..|cache|] == cache;
  }

  /** The hashes in the client's cache move as those in the list do. */
  lemma CacheTouched(cache: seq<Entry>, hash: nat, img: Option<Picture>)
    requires Distinct(HashesOf(cache)) && |cache| <= CACHE_SIZE
    ensures HashesOf(CacheAfter(cache, hash, img)) == Touch(HashesOf(cache), hash)
  {
    hide HashesOf, Showing, PlaceOf, CacheAfter, Touch, Without, Distinct;
    var k, e := PlaceOf(cache, hash), Entry(hash, Showing(cache, hash, img));
    if k < |cache| {
      TouchAt(HashesOf(cache), k);
      AfterPresent(cache, hash, img);
      HashesApart(cache, k, e);
    } else {
      assert hash !in HashesOf(cache);
      TouchAbsent(HashesOf(cache), hash);
      AfterAbsent(cache, hash, img);
      HashesMore(cache, e, if |cache| == CACHE_SIZE then CACHE_SIZE - 1 else |cache|);
    }
  }

  /** The client keeps the latest hashes that it was told of. */
  lemma {:induction false} ClientHashes(paints: seq<Paint>)
    ensures HashesOf(ClientCache(paints)) == First(ByLastUse(Heard(paints)))
  {
    hide Touch, ByLastUse, CacheAfter, AnswerTo;
    if paints == [] {
      NothingHeard();
    } else {
      var n := |paints| - 1;
      ClientHashes(paints[..n]);
      CacheFacts(Heard(paints[..n]));
      if Told(paints, n) != Nothing {
        CacheTouched(ClientCache(paints[..n]), paints[n].hash, Image(Told(paints, n)));
        TouchKeepsFirst(Heard(paints[..n]), paints[n].hash);
      } else {
        assert Heard(paints[..n]) + [] == Heard(paints[..n]);
      }
    }
  }

  lemma NothingHeard()
    ensures HashesOf([]) == First(ByLastUse([]))
  {
  }

  /** Every picture in a cache is the one of its hash. */
  ghost predicate Right(cache: seq<Entry>, pictures: nat -> Picture) {
    forall k :: 0 <= k < |cache| ==> cache[k].img == Some(pictures(cache[k].hash))
  }

  lemma StaysRight(cache: seq<Entry>, hash: nat, img: Option<Picture>, pictures: nat -> Picture)
    requires Right(cache, pictures)
    ensures Showing(cache, hash, img) == if hash in HashesOf(cache) then Some(pictures(hash)) else img
    ensures Showing(cache, hash, img) == Some(pictures(hash)) ==> Right(CacheAfter(cache, hash, img), pictures)
  {
    var k := PlaceOf(cache, hash);
    if k < |cache| {
      assert HashesOf(cache)[k] == hash;
    }
  }

  lemma PrefixTold(paints: seq<Paint>, m: nat, n: nat)
    requires n < m <= |paints|
    ensures Told(paints[..m], n) == Told(paints, n) && Shown(paints[..m], n) == Shown(paints, n)
    ensures HeldAt(paints[..m], n) == HeldAt(paints, n)
  {
    assert paints[..m][..n] == paints[..n];
  }

  lemma HeldPrefix(paints: seq<Paint>, m: nat)
    requires AllHeld(paints) && m <= |paints|
    ensures AllHeld(paints[..m])
  {
    hide Told, HeldAt;
    forall n | 0 <= n < m && Told(paints[..m], n) == NoPng ensures HeldAt(paints[..m], n) {
      PrefixTold(paints, m, n);
    }
  }

  /** One paint after some that were shown. */
  lemma OneShown(paints: seq<Paint>, n: nat, pictures: nat -> Picture)
    requires NoCollision(paints, pictures) && n < |paints| && Right(ClientCache(paints[..n]), pictures)
    requires Told(paints, n) != Nothing
    ensures Shown(paints, n) == Some(pictures(paints[n].hash)) <==> Told(paints, n).Png? || HeldAt(paints, n)
  {
    hide First, ByLastUse, ClientCache;
    ClientHashes(paints[..n]);
    StaysRight(ClientCache(paints[..n]), paints[n].hash, Image(Told(paints, n)), pictures);
  }

  lemma OneMoreRight(paints: seq<Paint>, n: nat, pictures: nat -> Picture)
    requires |paints| == n + 1 && NoCollision(paints, pictures) && Right(ClientCache(paints[..n]), pictures)
    requires Told(paints, n) == NoPng ==> HeldAt(paints, n)
    ensures Right(ClientCache(paints), pictures)
    ensures Told(paints, n) != Nothing ==> Shown(paints, n) == Some(pictures(paints[n].hash))
  {
    hide CacheAfter, Showing, AnswerTo, HeldAt, Right, NoCollision;
    if Told(paints, n) != Nothing {
      OneShown(paints, n, pictures);
      StaysRight(ClientCache(paints[..n]), paints[n].hash, Image(Told(paints, n)), pictures);
    }
  }

  /** While all is held, all is shown, and the client's pictures are right. */
  lemma {:induction false} HeldIsRight(paints: seq<Paint>, pictures: nat -> Picture)
    requires NoCollision(paints, pictures) && AllHeld(paints)
    ensures Right(ClientCache(paints), pictures) && AllShown(paints, pictures)
  {
    hide Told, Shown, HeldAt;
    if paints != [] {
      var n := |paints| - 1;
      hide ClientCache, Right;
      HeldPrefix(paints, n);
      HeldIsRight(paints[..n], pictures);
      OneMoreRight(paints, n, pictures);
      forall k | 0 <= k < n && Told(paints, k) != Nothing ensures Shown(paints, k) == Some(pictures(paints[k].hash)) {
        PrefixTold(paints, n, k);
      }
    }
  }

  lemma ShownPrefix(paints: seq<Paint>, m: nat, pictures: nat -> Picture)
    requires AllShown(paints, pictures) && NoCollision(paints, pictures) && m <= |paints|
    ensures AllShown(paints[..m], pictures) && NoCollision(paints[..m], pictures)
  {
    hide Told, Shown;
    forall n | 0 <= n < m && Told(paints[..m], n) != Nothing
      ensures Shown(paints[..m], n) == Some(pictures(paints[..m][n].hash))
    {
      PrefixTold(paints, m, n);
    }
  }

  lemma {:induction false} ShownIsHeld(paints: seq<Paint>, pictures: nat -> Picture)
    requires NoCollision(paints, pictures) && AllShown(paints, pictures)
    ensures AllHeld(paints)
  {
    hide Told, Shown, HeldAt, ClientCache;
    forall n | 0 <= n < |paints| && Told(paints, n) == NoPng ensures HeldAt(paints, n) {
      ShownPrefix(paints, n, pictures);
      ShownIsHeld(paints[..n], pictures);
      HeldIsRight(paints[..n], pictures);
      OneShown(paints, n, pictures);
    }
  }

  /** The client shows all that it is told of, if and only if each hash that is announced alone
      is among the latest hashes that it was told of. */
  lemma AllShownIff(paints: seq<Paint>, pictures: nat -> Picture)
    requires NoCollision(paints, pictures)
    ensures AllShown(paints, pictures) <==> AllHeld(paints)
  {
    hide AllShown, AllHeld, NoCollision;
    if AllHeld(paints) {
      HeldIsRight(paints, pictures);
    } else if AllShown(paints, pictures) {
      ShownIsHeld(paints, pictures);
    }
  }

  // ----- when that is so -----

  /** The client was told of the last paint of a hash. */
  ghost predicate LastHeard(paints: seq<Paint>, x: nat) {
    LastUse(Hashes(paints), x) > 0 && LastUseBelow(paints, x) && Told(paints, LastUse(Hashes(paints), x) - 1) != Nothing
  }

  predicate LastUseBelow(paints: seq<Paint>, x: nat) {
    LastUse(Hashes(paints), x) <= |paints|
  }

  /** No hash is announced alone when its last paint before failed to encode. */
  ghost predicate Unspoilt(paints: seq<Paint>) {
    forall n :: 0 <= n < |paints| && Told(paints, n) == NoPng ==> LastHeard(paints[..n], paints[n].hash)
  }

  lemma {:induction false} LastUseIn(history: seq<nat>, x: nat)
    ensures LastUse(history, x) > 0 <==> x in history
    ensures LastUse(history, x) <= |history|
  {
    if history != [] {
      assert history == history[..|history| - 1] + [history[|history| - 1]];
      LastUseIn(history[..|history| - 1], x);
    }
  }

  lemma LastUseMore(history: seq<nat>, last: nat, x: nat)
    ensures LastUse(history + [last], x) == if last == x then |history| + 1 else LastUse(history, x)
  {
    assert (history + [last])[..|history|] == history;
  }

  /** What the client was told of after the last paint of a hash was painted after it. */
  lemma {:induction false} HeardLater(paints: seq<Paint>, x: nat, y: nat)
    requires LastHeard(paints, x)
    ensures LastUse(Heard(paints), x) > 0
    ensures LastUse(Heard(paints), y) > LastUse(Heard(paints), x) ==>
            LastUse(Hashes(paints), y) > LastUse(Hashes(paints), x)
  {
    hide Told, LastUse, Heard;
    LastUseIn(Hashes(paints), x);
    var n := |paints| - 1;
    var before, last := paints[..n], paints[n].hash;
    HeardStep(paints, x);
    HeardStep(paints, y);
    hide Hashes;
    LastUseIn(Hashes(before), x);
    LastUseIn(Hashes(before), y);
    LastUseIn(Heard(before), y);
    if last != x {
      PrefixTold(paints, n, LastUse(Hashes(paints), x) - 1);
      HeardLater(before, x, y);
    }
  }

  lemma HeardStep(paints: seq<Paint>, x: nat)
    requires paints != []
    ensures var n := |paints| - 1;
            var last, hashes, heard := paints[n].hash, Hashes(paints[..n]), Heard(paints[..n]);
            && LastUse(Hashes(paints), x) == (if last == x then n + 1 else LastUse(hashes, x))
            && LastUse(Heard(paints), x) ==
               (if Told(paints, n) == Nothing then LastUse(heard, x)
                else if last == x then |heard| + 1
                else LastUse(heard, x))
  {
    var n := |paints| - 1;
    LastUseMore(Hashes(paints[..n]), paints[n].hash, x);
    LastUseMore(Heard(paints[..n]), paints[n].hash, x);
    hide Told, LastUse;
    assert Heard(paints[..n]) + [] == Heard(paints[..n]);
  }

  lemma {:induction false} DistinctFits(a: seq<nat>, b: seq<nat>)
    requires Distinct(a) && forall y :: y in a ==> y in b
    ensures |a| <= |b|
  {
    if a != [] {
      assert a[0] in a && a[0] !in a[1..] && forall y :: y in a[1..] ==> y in a;
      var k :| 0 <= k < |b| && b[k] == a[0];
      var rest := b[..k] + b[k + 1..];
      forall y | y in a[1..] ensures y in rest {
        var j :| 0 <= j < |b| && b[j] == y;
        assert j != k;
        assert rest[if j < k then j else j - 1] == y;
      }
      DistinctFits(a[1..], rest);
    }
  }

  lemma InFirst(s: seq<nat>, x: nat) returns (k: nat)
    requires x in First(s)
    ensures k < |s| && k < CACHE_SIZE && s[k] == x
  {
    k :| 0 <= k < |First(s)| && First(s)[k] == x;
  }

  /** A hash of the list whose last paint the client was told of is in the client's cache too. */
  lemma HeldLonger(paints: seq<Paint>, x: nat)
    requires LastHeard(paints, x) && x in First(ByLastUse(Hashes(paints)))
    ensures x in First(ByLastUse(Heard(paints)))
  {
    hide Without, LastHeard, ByLastUse, Hashes, Heard, LastUse, First, Distinct;
    var all, heard := ByLastUse(Hashes(paints)), ByLastUse(Heard(paints));
    ByLastUseDistinct(Hashes(paints));
    ByLastUseDistinct(Heard(paints));
    HeardLater(paints, x, x);
    LastUseIn(Heard(paints), x);
    var p := InFirst(all, x);
    assert x in heard;
    var q: nat :| q < |heard| && heard[q] == x;
    forall y | y in heard[..q] ensures y in all[..p] {
      EarlierHeard(paints, x, y, p, q);
    }
    DistinctPrefix(heard, q);
    DistinctFits(heard[..q], all[..p]);
    IsInFirst(heard, q);
  }

  lemma DistinctPrefix(s: seq<nat>, q: nat)
    requires Distinct(s) && q <= |s|
    ensures Distinct(s[..q])
  {
  }

  lemma IsInFirst(s: seq<nat>, k: nat)
    requires k < |s| && k < CACHE_SIZE
    ensures s[k] in First(s)
  {
    assert First(s)[k] == s[k];
  }

  lemma EarlierHeard(paints: seq<Paint>, x: nat, y: nat, p: nat, q: nat)
    requires LastHeard(paints, x)
    requires p < |ByLastUse(Hashes(paints))| && ByLastUse(Hashes(paints))[p] == x
    requires q < |ByLastUse(Heard(paints))| && ByLastUse(Heard(paints))[q] == x && y in ByLastUse(Heard(paints))[..q]
    ensures y in ByLastUse(Hashes(paints))[..p]
  {
    hide Told, LastHeard, LastUse, Hashes, Heard, Without;
    var all, heard := ByLastUse(Hashes(paints)), ByLastUse(Heard(paints));
    var i: nat :| i < q && heard[i] == y;
    ByLastUseOrdered(Heard(paints), i, q);
    HeardLater(paints, x, y);
    LastUseIn(Hashes(paints), y);
    ByLastUseDistinct(Hashes(paints));
    hide ByLastUse;
    var j: nat :| j < |all| && all[j] == y;
    if p < j {
      ByLastUseOrdered(Hashes(paints), p, j);
    }
    assert j < p;
    assert all[..p][j] == y;
  }

  /** While no hash is announced whose last paint failed to encode, all that is announced is shown. */
  lemma UnspoiltIsShown(paints: seq<Paint>, pictures: nat -> Picture)
    requires NoCollision(paints, pictures) && Unspoilt(paints)
    ensures AllShown(paints, pictures)
  {
    forall n | 0 <= n < |paints| && Told(paints, n) == NoPng ensures HeldAt(paints, n) {
      hide LastHeard;
      HeldLonger(paints[..n], paints[n].hash);
    }
    hide Told, HeldAt, Unspoilt;
    AllShownIff(paints, pictures);
  }

  /** When every picture encodes, everything is shown, and the client's cache is the list. */
  lemma AllEncode(paints: seq<Paint>, pictures: nat -> Picture)
    requires NoCollision(paints, pictures) && forall n :: 0 <= n < |paints| ==> paints[n].png.Some?
    ensures AllShown(paints, pictures)
    ensures HashesOf(ClientCache(paints)) == First(ByLastUse(Hashes(paints)))
  {
    hide ByLastUse, First, ClientCache, Shown, Hashes, Heard, Distinct;
    ToldOfAll(paints);
    ClientHashes(paints);
    forall n | 0 <= n < |paints| && Told(paints, n) == NoPng ensures HeldAt(paints, n) {
      ToldOfAll(paints[..n]);
    }
    hide HeldAt, Told;
    AllShownIff(paints, pictures);
  }

  lemma {:induction false} ToldOfAll(paints: seq<Paint>)
    requires forall n :: 0 <= n < |paints| ==> paints[n].png.Some?
    ensures Heard(paints) == Hashes(paints)
  {
    if paints != [] {
      ToldOfAll(paints[..|paints| - 1]);
    }
  }

  /** The client knows nothing of a hash whose paints all failed to encode. */
  lemma {:induction false} NeverHeard(paints: seq<Paint>, x: nat)
    requires forall k :: 0 <= k < |paints| && paints[k].hash == x ==> Told(paints, k) == Nothing
    ensures x !in Heard(paints)
  {
    hide Told;
    if paints != [] {
      var n := |paints| - 1;
      forall k | 0 <= k < n && paints[k].hash == x ensures Told(paints[..n], k) == Nothing {
        PrefixTold(paints, n, k);
      }
      NeverHeard(paints[..n], x);
    }
  }

  /** A hash announced alone although its picture was never sent: the client cannot show it. */
  lemma {:induction false} NeverSent(paints: seq<Paint>, n: nat, pictures: nat -> Picture)
    requires NoCollision(paints, pictures) && n < |paints| && Told(paints, n) == NoPng
    requires forall k :: 0 <= k < n && paints[k].hash == paints[n].hash ==> !Told(paints, k).Png?
    ensures !AllShown(paints, pictures)
    decreases n
  {
    var x := paints[n].hash;
    hide Told, AllShown, NoCollision;
    if k: nat :| k < n && paints[k].hash == x && Told(paints, k) == NoPng {
      NeverSent(paints, k, pictures);
    } else {
      forall k | 0 <= k < n && paints[k].hash == x ensures Told(paints[..n], k) == Nothing {
        PrefixTold(paints, n, k);
      }
      NeverHeard(paints[..n], x);
      ByLastUseDistinct(Heard(paints[..n]));
      hide ByLastUse, Heard;
      assert !HeldAt(paints, n);
      AllShownIff(paints, pictures);
    }
  }

  /** A picture that fails to encode once: at its next paint the client is told the hash only,
      and shows nothing. */
  lemma FailsOnce(hash: nat, picture: Picture)
    ensures var paints := [Paint(hash, None), Paint(hash, Some(picture))];
            Told(paints, 0) == Nothing && Told(paints, 1) == NoPng && Shown(paints, 1) == None
  {
    var paints := [Paint(hash, None), Paint(hash, Some(picture))];
    assert paints[..0] == [] && paints[..1] == [Paint(hash, None)];
    Failed(hash);
    hide ClientCache, Hashes, ByLastUse;
    NothingPainted();
  }

  lemma NothingPainted()
    ensures ByLastUse(Hashes([])) == [] && ClientCache([]) == []
  {
  }

  lemma Failed(hash: nat)
    ensures var paints := [Paint(hash, None)];
            Told(paints, 0) == Nothing && ByLastUse(Hashes(paints)) == [hash] && ClientCache(paints) == []
  {
    var paints := [Paint(hash, None)];
    assert paints[..0] == [];
    NothingPainted();
    assert Told(paints, 0) == Nothing;
    hide Told, CacheAfter;
    assert Hashes(paints) == [hash];
    assert [hash][..0] == [];
    assert ByLastUse([hash]) == [hash] + Without([], hash);
  }

  lemma OneMorePaint(paints: seq<Paint>, n: nat)
    requires n < |paints|
    ensures Hashes(paints[..n + 1]) == Hashes(paints[..n]) + [paints[n].hash]
    ensures ClientCache(paints[..n + 1]) ==
            if Told(paints, n) == Nothing then ClientCache(paints[..n])
            else CacheAfter(ClientCache(paints[..n]), paints[n].hash, Image(Told(paints, n)))
  {
    hide Told, CacheAfter;
    var next := paints[..n + 1];
    assert next[..n] == paints[..n] && next[n] == paints[n];
    PrefixTold(paints, n + 1, n);
  }

  /** Both ends over a run of paints: what the client shows of each one it is told of. */
  method PaintAll(paints: seq<Paint>) returns (shown: seq<Option<Picture>>)
    ensures |shown| == |paints|
    ensures forall n :: 0 <= n < |paints| ==> shown[n] == if Told(paints, n) == Nothing then None else Shown(paints, n)
  {
    hide ByLastUse, First, CacheAfter, Showing, Hashes, ClientCache;
    var session := new ChildSession();
    var layer := new TileLayer();
    shown := [];
    NothingPainted();
    assert paints[..0] == [];
    for n := 0 to |paints|
      invariant session.Valid() && session.history == Hashes(paints[..n])
      invariant layer.pngCache == ClientCache(paints[..n])
      invariant |shown| == n
      invariant forall k :: 0 <= k < n ==> shown[k] == if Told(paints, k) == Nothing then None else Shown(paints, k)
    {
      OneMorePaint(paints, n);
      var answer := session.RenderWindow(paints[n].hash, paints[n].png);
      var img := None;
      if answer != Nothing {
        img := layer.OnDialogPaintMsg(paints[n].hash, if answer.Png? then Some(answer.picture) else None);
      }
      shown := shown + [img];
    }
  }
}
