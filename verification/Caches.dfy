/** What the write-back cache means: a recency list of items in front of a backing map. */
module Caches {
  import opened Records

  /** A cached key: `dirty` if its value was not written back, `inL2` if the backing map has the key. */
  datatype Item<K, V> = Item(key: K, value: V, priority: nat, dirty: bool, inL2: bool)

  /** The cached items, most recently used first, and the backing map. */
  datatype Cache<K, V> = Cache(items: seq<Item<K, V>>, l2: map<K, V>)

  function Keys<K, V>(items: seq<Item<K, V>>): (keys: seq<K>)
    ensures |keys| == |items|
  {
    seq(|items|, i requires 0 <= i < |items| => items[i].key)
  }

  /** The first item for a key, or the length of the list. */
  function Position<K(==), V>(items: seq<Item<K, V>>, k: K): (p: nat)
    ensures p <= |items| && forall i :: 0 <= i < p ==> items[i].key != k
    ensures p < |items| ==> items[p].key == k
  {
    if items == [] then 0
    else if items[0].key == k then 0
    else 1 + Position(items[1..], k)
  }

  /** The item cached for a key. */
  function Cached<K(==), V>(items: seq<Item<K, V>>, k: K): Option<Item<K, V>> {
    var p := Position(items, k);
    if p < |items| then Some(items[p]) else None
  }

  ghost predicate DistinctKeys<K, V>(items: seq<Item<K, V>>) {
    forall i, j :: 0 <= i < j < |items| ==> items[i].key != items[j].key
  }

  /** The flags of every item tell the truth about the backing map. */
  ghost predicate Coherent<K, V>(c: Cache<K, V>) {
    && DistinctKeys(c.items)
    && forall i :: 0 <= i < |c.items| ==>
         && (c.items[i].inL2 <==> c.items[i].key in c.l2)
         && (!c.items[i].dirty ==> c.items[i].inL2 && c.l2[c.items[i].key] == c.items[i].value)
  }

  /** What a caller is shown for a key: the cached value, or else that of the backing map. */
  function Shown<K, V>(c: Cache<K, V>, k: K): Option<V> {
    match Cached(c.items, k)
    case Some(it) => Some(it.value)
    case None => if k in c.l2 then Some(c.l2[k]) else None
  }

  ghost function Visible<K, V>(c: Cache<K, V>): map<K, V> {
    map k | k in c.l2.Keys + (set i | 0 <= i < |c.items| :: c.items[i].key) && Shown(c, k).Some? :: Shown(c, k).value
  }

  function Dropped<T>(s: seq<T>, p: nat): (r: seq<T>)
    requires p < |s|
    ensures |r| == |s| - 1
  {
    s[..p] + s[p + 1..]
  }

  // ---------------------------------------------------------------- operations

  /** Item `p` written back. */
  function Flushed<K, V>(c: Cache<K, V>, p: nat): Cache<K, V>
    requires p < |c.items|
  {
    var it := c.items[p];
    if it.dirty then Cache(c.items[p := it.(dirty := false, inL2 := true)], c.l2[it.key := it.value]) else c
  }

  /** Room for one more item: the least recent one goes, written back first if need be.  There is no room when that
      write fails, or when the cache holds nothing at all. */
  function Room<K, V>(c: Cache<K, V>, capacity: nat, wrote: bool): Option<Cache<K, V>> {
    var n := |c.items|;
    if n < capacity then Some(c)
    else if n == 0 || (c.items[n - 1].dirty && !wrote) then None
    else Some(Cache(c.items[..n - 1], Flushed(c, n - 1).l2))
  }

  function Put<K, V>(c: Cache<K, V>, capacity: nat, k: K, v: V, priority: nat, wrote: bool): (bool, Cache<K, V>) {
    var p := Position(c.items, k);
    if p < |c.items| then
      (true, Cache([c.items[p].(value := v, priority := priority, dirty := true)] + Dropped(c.items, p), c.l2))
    else match Room(c, capacity, wrote)
      case None => (false, c)
      case Some(r) => (true, Cache([Item(k, v, priority, true, k in r.l2)] + r.items, r.l2))
  }

  function Get<K, V>(c: Cache<K, V>, capacity: nat, k: K, wrote: bool): (Option<V>, Cache<K, V>) {
    var p := Position(c.items, k);
    if p < |c.items| then (Some(c.items[p].value), Cache([c.items[p]] + Dropped(c.items, p), c.l2))
    else if k !in c.l2 then (None, c)
    else match Room(c, capacity, wrote)
      case None => (Some(c.l2[k]), c)
      case Some(r) => (Some(c.l2[k]), Cache([Item(k, c.l2[k], 0, false, true)] + r.items, r.l2))
  }

  function Remove<K, V>(c: Cache<K, V>, k: K): Cache<K, V> {
    var p := Position(c.items, k);
    if p < |c.items| then Cache(Dropped(c.items, p), if c.items[p].inL2 then c.l2 - {k} else c.l2)
    else Cache(c.items, c.l2 - {k})
  }

  function Cleaned<K, V>(it: Item<K, V>): Item<K, V> {
    if it.dirty then it.(dirty := false, inL2 := true) else it
  }

  /** The dirty values, except those whose write fails. */
  function Written<K, V>(items: seq<Item<K, V>>, stuck: set<K>): map<K, V> {
    map k | k in Keys(items) && Cached(items, k).Some? && Cached(items, k).value.dirty && k !in stuck
      :: Cached(items, k).value.value
  }

  /** Every item written back except those whose write fails. */
  function Synced<K, V>(c: Cache<K, V>, stuck: set<K>): (d: Cache<K, V>)
    ensures |d.items| == |c.items|
  {
    Cache(seq(|c.items|, i requires 0 <= i < |c.items| =>
                if c.items[i].key in stuck then c.items[i] else Cleaned(c.items[i])),
          c.l2 + Written(c.items, stuck))
  }

  predicate NoneStuck<K, V>(items: seq<Item<K, V>>, stuck: set<K>) {
    forall i :: 0 <= i < |items| && items[i].dirty ==> items[i].key !in stuck
  }

  // ---------------------------------------------------------------- looking items up

  lemma CachedIs<K, V>(items: seq<Item<K, V>>, i: nat)
    requires DistinctKeys(items) && i < |items|
    ensures Cached(items, items[i].key) == Some(items[i])
  {
  }

  lemma CachedFront<K, V>(it: Item<K, V>, items: seq<Item<K, V>>, k: K)
    ensures Cached([it] + items, k) == if k == it.key then Some(it) else Cached(items, k)
  {
  }

  lemma DroppedDistinct<K, V>(items: seq<Item<K, V>>, p: nat)
    requires DistinctKeys(items) && p < |items|
    ensures DistinctKeys(Dropped(items, p))
    ensures forall i :: 0 <= i < |items| - 1 ==> Dropped(items, p)[i] == items[if i < p then i else i + 1]
  {
  }

  lemma CachedDropped<K, V>(items: seq<Item<K, V>>, p: nat, k: K)
    requires DistinctKeys(items) && p < |items|
    ensures Cached(Dropped(items, p), k) == if k == items[p].key then None else Cached(items, k)
  {
    hide Dropped;
    var d := Dropped(items, p);
    DroppedDistinct(items, p);
    var i := Position(items, k);
    CachedIs(items, p);
    if i < |items| && i != p {
      CachedIs(d, if i < p then i else i - 1);
    }
  }

  lemma CachedUpdate<K, V>(items: seq<Item<K, V>>, p: nat, it: Item<K, V>, k: K)
    requires DistinctKeys(items) && p < |items| && it.key == items[p].key
    ensures DistinctKeys(items[p := it])
    ensures Cached(items[p := it], k) == if k == it.key then Some(it) else Cached(items, k)
  {
    var i := Position(items, k);
    CachedIs(items[p := it], p);
    if i < |items| && i != p {
      CachedIs(items[p := it], i);
    }
  }

  lemma CachedPrefix<K, V>(items: seq<Item<K, V>>, prefix: seq<Item<K, V>>, k: K)
    requires Cached(items, k).None? && prefix <= items
    ensures Cached(prefix, k).None?
  {
  }

  lemma VisibleAt<K, V>(c: Cache<K, V>, k: K)
    ensures k in Visible(c) <==> Shown(c, k).Some?
    ensures k in Visible(c) ==> Visible(c)[k] == Shown(c, k).value
  {
  }

  /** A map that agrees with what is shown for every key is the visible map. */
  lemma IsVisible<K(!new), V>(c: Cache<K, V>, d: map<K, V>)
    requires forall k: K :: Shown(c, k) == if k in d then Some(d[k]) else None
    ensures Visible(c) == d
  {
  }

  lemma SameShown<K(!new), V>(c: Cache<K, V>, d: Cache<K, V>)
    requires forall k: K :: Shown(c, k) == Shown(d, k)
    ensures Visible(c) == Visible(d)
  {
    hide Shown, Visible;
    forall k: K
      ensures Shown(c, k) == if k in Visible(d) then Some(Visible(d)[k]) else None
    {
      VisibleAt(d, k);
    }
    IsVisible(c, Visible(d));
  }

  // ---------------------------------------------------------------- each operation is invisible

  lemma FlushInvisible<K(!new), V>(c: Cache<K, V>, p: nat)
    requires Coherent(c) && p < |c.items|
    ensures Coherent(Flushed(c, p)) && Visible(Flushed(c, p)) == Visible(c)
    ensures Flushed(c, p).items == c.items[p := c.items[p].(dirty := false, inL2 := true)]
    ensures Keys(Flushed(c, p).items) == Keys(c.items)
  {
    hide Visible, Position;
    var it := c.items[p];
    if it.dirty {
      forall k: K
        ensures Shown(Flushed(c, p), k) == Shown(c, k)
      {
        CachedUpdate(c.items, p, it.(dirty := false, inL2 := true), k);
        CachedIs(c.items, p);
      }
      SameShown(Flushed(c, p), c);
    }
  }

  /** Dropping an item that is not dirty shows the backing map's value, which is the same. */
  lemma DropInvisible<K(!new), V>(c: Cache<K, V>, p: nat)
    requires Coherent(c) && p < |c.items| && !c.items[p].dirty
    ensures var d := Cache(Dropped(c.items, p), c.l2);
      Coherent(d) && Visible(d) == Visible(c)
  {
    hide Visible, Cached, Dropped;
    var d := Cache(Dropped(c.items, p), c.l2);
    DroppedDistinct(c.items, p);
    CachedIs(c.items, p);
    forall k: K
      ensures Shown(d, k) == Shown(c, k)
    {
      CachedDropped(c.items, p, k);
    }
    SameShown(d, c);
  }

  /** An item put in front: its value is what is seen of its key, and of no other. */
  lemma FrontVisible<K(!new), V>(c: Cache<K, V>, it: Item<K, V>)
    requires Coherent(c) && Cached(c.items, it.key).None?
    requires it.inL2 <==> it.key in c.l2
    requires !it.dirty ==> it.inL2 && c.l2[it.key] == it.value
    ensures var d := Cache([it] + c.items, c.l2);
      Coherent(d) && Visible(d) == Visible(c)[it.key := it.value]
  {
    hide Visible;
    var d := Cache([it] + c.items, c.l2);
    forall k: K
      ensures Shown(d, k)
           == if k in Visible(c)[it.key := it.value] then Some(Visible(c)[it.key := it.value][k]) else None
    {
      VisibleAt(c, k);
      CachedFront(it, c.items, k);
    }
    IsVisible(d, Visible(c)[it.key := it.value]);
  }

  /** An item moved to the front, perhaps with a new value. */
  lemma FrontAgain<K(!new), V>(c: Cache<K, V>, p: nat, it: Item<K, V>)
    requires Coherent(c) && p < |c.items| && it.key == c.items[p].key && it.inL2 == c.items[p].inL2
    requires !it.dirty ==> it == c.items[p]
    ensures var d := Cache([it] + Dropped(c.items, p), c.l2);
      Coherent(d) && Visible(d) == Visible(c)[it.key := it.value]
  {
    hide Visible, Cached, Dropped;
    var rest := Dropped(c.items, p);
    var d := Cache([it] + rest, c.l2);
    DroppedDistinct(c.items, p);
    var v := Visible(c)[it.key := it.value];
    forall k: K
      ensures Shown(d, k) == if k in v then Some(v[k]) else None
    {
      VisibleAt(c, k);
      CachedFront(it, rest, k);
      CachedDropped(c.items, p, k);
    }
    IsVisible(d, v);
  }

  lemma RoomInvisible<K(!new), V>(c: Cache<K, V>, capacity: nat, wrote: bool)
    requires Coherent(c)
    ensures var r := Room(c, capacity, wrote);
      r.Some? ==> Coherent(r.value) && Visible(r.value) == Visible(c) && r.value.items <= c.items
    ensures wrote && capacity > 0 ==> Room(c, capacity, wrote).Some?
  {
    hide Visible, Coherent;
    var r := Room(c, capacity, wrote);
    if r.Some? && |c.items| >= capacity {
      var n := |c.items|;
      FlushInvisible(c, n - 1);
      var f := Flushed(c, n - 1);
      DropInvisible(f, n - 1);
      assert Dropped(f.items, n - 1) == c.items[..n - 1];
    }
  }

  /** A put changes its key and nothing else; a failed one changes nothing. */
  lemma PutVisible<K(!new), V>(c: Cache<K, V>, capacity: nat, k: K, v: V, priority: nat, wrote: bool)
    requires Coherent(c)
    ensures var (ok, d) := Put(c, capacity, k, v, priority, wrote);
      Coherent(d) && Visible(d) == (if ok then Visible(c)[k := v] else Visible(c)) && (!ok ==> d == c)
    ensures wrote && capacity > 0 ==> Put(c, capacity, k, v, priority, wrote).0
  {
    hide Visible, Coherent, Room;
    var p := Position(c.items, k);
    if p < |c.items| {
      FrontAgain(c, p, c.items[p].(value := v, priority := priority, dirty := true));
    } else {
      RoomInvisible(c, capacity, wrote);
      var r := Room(c, capacity, wrote);
      if r.Some? {
        CachedPrefix(c.items, r.value.items, k);
        FrontVisible(r.value, Item(k, v, priority, true, k in r.value.l2));
      }
    }
  }

  /** There is room for one more item when a slot is free, or when the least recent item need not be written back or
      the write succeeds. */
  predicate HasRoom<K, V>(c: Cache<K, V>, capacity: nat, wrote: bool) {
    var n := |c.items|;
    n < capacity || (n > 0 && (wrote || !c.items[n - 1].dirty))
  }

  /** Making room keeps the other items as they are, and whether the backing map has a key that is not cached. */
  lemma RoomForOne<K, V>(c: Cache<K, V>, capacity: nat, wrote: bool, k: K)
    requires Coherent(c) && Cached(c.items, k).None?
    ensures var r := Room(c, capacity, wrote);
      && (r.Some? <==> HasRoom(c, capacity, wrote))
      && (r.Some? ==>
            && r.value.items <= c.items && Cached(r.value.items, k).None? && (k in r.value.l2 <==> k in c.l2)
            && (k in c.l2 ==> r.value.l2[k] == c.l2[k]))
  {
    var r := Room(c, capacity, wrote);
    if r.Some? {
      CachedPrefix(c.items, r.value.items, k);
    }
  }

  lemma PrefixKeeps<K, V>(items: seq<Item<K, V>>, rest: seq<Item<K, V>>, j: K)
    requires rest <= items
    ensures Cached(rest, j).Some? ==> Cached(rest, j) == Cached(items, j)
  {
  }

  /** A put succeeds exactly when its key is cached or there is room.  Then the item in front has the value and the
      priority given and is to be written back, and every other item still cached is as it was. */
  lemma PutCaches<K, V>(c: Cache<K, V>, capacity: nat, k: K, v: V, priority: nat, wrote: bool)
    requires Coherent(c)
    ensures var (ok, d) := Put(c, capacity, k, v, priority, wrote);
      && (ok <==> Cached(c.items, k).Some? || HasRoom(c, capacity, wrote))
      && (ok ==> d.items != [] && d.items[0] == Item(k, v, priority, true, k in c.l2))
      && (ok ==> forall j :: j != k && Cached(d.items, j).Some? ==> Cached(d.items, j) == Cached(c.items, j))
  {
    hide Room, HasRoom, Dropped;
    var (ok, d) := Put(c, capacity, k, v, priority, wrote);
    var p := Position(c.items, k);
    if p == |c.items| {
      RoomForOne(c, capacity, wrote, k);
    }
    forall j | ok && j != k && Cached(d.items, j).Some?
      ensures Cached(d.items, j) == Cached(c.items, j)
    {
      CachedFront(d.items[0], d.items[1..], j);
      assert d.items == [d.items[0]] + d.items[1..];
      if p < |c.items| {
        CachedDropped(c.items, p, j);
      } else {
        PrefixKeeps(c.items, d.items[1..], j);
      }
    }
  }

  /** A get of a cached key leaves its item as it is, in front; one of a key that only the backing map has puts a clean
      item of priority 0 in front exactly when there is room, and changes nothing otherwise. */
  lemma GetCaches<K, V>(c: Cache<K, V>, capacity: nat, k: K, wrote: bool)
    requires Coherent(c)
    ensures var (found, d) := Get(c, capacity, k, wrote);
      && (Cached(c.items, k).Some? ==> d.items != [] && Some(d.items[0]) == Cached(c.items, k) && d.l2 == c.l2)
      && (Cached(c.items, k).None? && k in c.l2 && HasRoom(c, capacity, wrote) ==>
            d.items != [] && d.items[0] == Item(k, c.l2[k], 0, false, true))
      && (Cached(c.items, k).None? && !(k in c.l2 && HasRoom(c, capacity, wrote)) ==> d == c)
      && forall j :: j != k && Cached(d.items, j).Some? ==> Cached(d.items, j) == Cached(c.items, j)
  {
    hide Room, HasRoom, Dropped;
    var (found, d) := Get(c, capacity, k, wrote);
    var p := Position(c.items, k);
    if p == |c.items| {
      RoomForOne(c, capacity, wrote, k);
    }
    forall j | d != c && j != k && Cached(d.items, j).Some?
      ensures Cached(d.items, j) == Cached(c.items, j)
    {
      CachedFront(d.items[0], d.items[1..], j);
      assert d.items == [d.items[0]] + d.items[1..];
      if p < |c.items| {
        CachedDropped(c.items, p, j);
      } else {
        PrefixKeeps(c.items, d.items[1..], j);
      }
    }
  }

  /** A get returns what is visible and changes nothing visible, whether it promotes, evicts or fails to. */
  lemma GetVisible<K(!new), V>(c: Cache<K, V>, capacity: nat, k: K, wrote: bool)
    requires Coherent(c)
    ensures var (found, d) := Get(c, capacity, k, wrote);
      && found == (if k in Visible(c) then Some(Visible(c)[k]) else None)
      && Coherent(d) && Visible(d) == Visible(c)
  {
    hide Visible, Coherent, Room;
    var p := Position(c.items, k);
    VisibleAt(c, k);
    if p < |c.items| {
      FrontAgain(c, p, c.items[p]);
      assert Visible(c)[k := Visible(c)[k]] == Visible(c);
    } else if k in c.l2 {
      RoomInvisible(c, capacity, wrote);
      var r := Room(c, capacity, wrote);
      if r.Some? {
        CachedPrefix(c.items, r.value.items, k);
        VisibleAt(r.value, k);
        FrontVisible(r.value, Item(k, c.l2[k], 0, false, true));
        assert Visible(c)[k := Visible(c)[k]] == Visible(c);
      }
    }
  }

  /** A remove takes its key out of both levels. */
  lemma RemoveVisible<K(!new), V>(c: Cache<K, V>, k: K)
    requires Coherent(c)
    ensures Coherent(Remove(c, k)) && Visible(Remove(c, k)) == Visible(c) - {k}
  {
    hide Visible, Dropped;
    var d := Remove(c, k);
    var p := Position(c.items, k);
    if p < |c.items| {
      DroppedDistinct(c.items, p);
    }
    forall j: K
      ensures Shown(d, j) == if j in Visible(c) - {k} then Some((Visible(c) - {k})[j]) else None
    {
      VisibleAt(c, j);
      if p < |c.items| {
        CachedDropped(c.items, p, j);
      }
    }
    IsVisible(d, Visible(c) - {k});
  }

  lemma WrittenAt<K, V>(items: seq<Item<K, V>>, stuck: set<K>, k: K)
    ensures var it, w := Cached(items, k), Written(items, stuck);
      && (k in w <==> it.Some? && it.value.dirty && k !in stuck)
      && (k in w ==> w[k] == it.value.value)
  {
    var p := Position(items, k);
    if p < |items| {
      assert Keys(items)[p] == k;
    }
  }

  lemma SyncedAt<K, V>(c: Cache<K, V>, stuck: set<K>, k: K)
    requires DistinctKeys(c.items)
    ensures var d := Synced(c, stuck);
      Cached(d.items, k) == match Cached(c.items, k)
        case Some(it) => Some(if k in stuck then it else Cleaned(it))
        case None => None
  {
    hide Written;
    var d := Synced(c, stuck);
    var p := Position(c.items, k);
    if p < |c.items| {
      CachedIs(d.items, p);
    }
  }

  lemma SyncCoherent<K, V>(c: Cache<K, V>, stuck: set<K>)
    requires Coherent(c)
    ensures Coherent(Synced(c, stuck)) && Keys(Synced(c, stuck).items) == Keys(c.items)
  {
    hide Written, Cached;
    var d := Synced(c, stuck);
    forall i | 0 <= i < |d.items|
      ensures d.items[i].inL2 <==> d.items[i].key in d.l2
      ensures !d.items[i].dirty ==> d.items[i].inL2 && d.l2[d.items[i].key] == d.items[i].value
    {
      WrittenAt(c.items, stuck, c.items[i].key);
      CachedIs(c.items, i);
    }
  }

  /** A sync is invisible; when no write fails, nothing stays dirty and the backing map is the visible map. */
  lemma SyncVisible<K(!new), V>(c: Cache<K, V>, stuck: set<K>)
    requires Coherent(c)
    ensures var d := Synced(c, stuck);
      && Coherent(d) && Visible(d) == Visible(c) && Keys(d.items) == Keys(c.items)
      && (forall i :: 0 <= i < |c.items| ==>
            d.items[i].value == c.items[i].value && d.items[i].priority == c.items[i].priority)
      && (NoneStuck(c.items, stuck) ==>
            d.l2 == Visible(c) && forall i :: 0 <= i < |d.items| ==> !d.items[i].dirty)
  {
    hide Visible, Written;
    var d := Synced(c, stuck);
    SyncCoherent(c, stuck);
    forall k: K
      ensures Shown(d, k) == Shown(c, k)
    {
      SyncedAt(c, stuck, k);
      WrittenAt(c.items, stuck, k);
    }
    SameShown(d, c);
    if NoneStuck(c.items, stuck) {
      AllClean(d);
    }
  }

  lemma AllClean<K(!new), V>(c: Cache<K, V>)
    requires Coherent(c) && forall i :: 0 <= i < |c.items| ==> !c.items[i].dirty
    ensures c.l2 == Visible(c)
  {
  }

  /** Writing one more item back. */
  lemma SyncOne<K(!new), V>(c: Cache<K, V>, stuck: set<K>, p: nat)
    requires Coherent(c) && p < |c.items| && c.items[p].key in stuck
    ensures Synced(c, stuck - {c.items[p].key}) == Flushed(Synced(c, stuck), p)
  {
    hide Written, Cached;
    var it := c.items[p];
    var d, e := Synced(c, stuck), Synced(c, stuck - {it.key});
    CachedIs(c.items, p);
    assert e.items == Flushed(d, p).items;
    var v, w := Written(c.items, stuck), Written(c.items, stuck - {it.key});
    forall k: K
      ensures k in w <==> k in (if it.dirty then v[it.key := it.value] else v)
      ensures k in w ==> w[k] == (if it.dirty then v[it.key := it.value] else v)[k]
    {
      WrittenAt(c.items, stuck, k);
      WrittenAt(c.items, stuck - {it.key}, k);
    }
    assert w == if it.dirty then v[it.key := it.value] else v;
  }
}
