/** The write-back cache: fixed slots with an intrusive recency list and intrusive hash chains, over a backing map. */
module TieredStores {
  import opened Records
  import opened Caches
  import opened SlotLists
  import opened SlotTables

  class TieredStore<K(==, !new), V> {
    const slots: array<Slot<K, V>>
    const buckets: array<nat>
    const hash: K -> nat
    /** What a reset slot holds. */
    const blank: Item<K, V>
    /** The backing store is open. */
    const open: bool
    /** The backing store fails no write. */
    const reliable: bool

    var lruHead: nat
    var lruTail: nat
    /** The backing store, as its users see it. */
    var l2: map<K, V>

    /** The listed slots, most recent first. */
    ghost var order: seq<nat>
    /** The slots of each bucket's chain. */
    ghost var chains: seq<seq<nat>>

    ghost predicate Linked()
      reads this, slots, buckets
    {
      && slots.Length <= 0x7FFF
      && Listed(slots[..], lruHead, lruTail, order)
      && Hashed(slots[..], buckets[..], chains, hash)
    }

    ghost predicate Valid()
      reads this, slots, buckets
    {
      && Linked()
      && Filed(slots[..], order, chains, hash, blank)
      && Coherent(State())
    }

    /** The cache this represents. */
    ghost function State(): Cache<K, V>
      reads this, slots
      requires InRange(order, slots.Length)
    {
      Cache(Items(slots[..], order), l2)
    }

    constructor (capacity: nat, bucketCount: nat, hash: K -> nat, key: K, value: V, store: map<K, V>, open: bool,
                 reliable: bool)
      requires capacity <= 0x7FFF && 0 < bucketCount
      ensures Valid() && fresh(slots) && fresh(buckets) && slots.Length == capacity
      ensures State() == Cache([], store) && this.open == open && this.reliable == reliable
    {
      this.hash := hash;
      this.blank := Item(key, value, 0, false, false);
      this.open := open;
      this.reliable := reliable;
      slots := new Slot<K, V>[capacity](_ => Blank(Item(key, value, 0, false, false)));
      buckets := new nat[bucketCount];
      l2 := store;
      new;
      ResetL1();
    }

    method ResetL1()
      requires slots.Length <= 0x7FFF && 0 < buckets.Length
      modifies slots, buckets, `lruHead, `lruTail, `order, `chains
      ensures Valid() && State() == Cache([], l2)
    {
      for i := 0 to slots.Length
        invariant forall j :: 0 <= j < i ==> slots[j] == Blank(blank)
      {
        slots[i] := Blank(blank);
      }
      lruHead, lruTail := INVALID, INVALID;
      for i := 0 to buckets.Length
        invariant forall j :: 0 <= j < slots.Length ==> slots[j] == Blank(blank)
        invariant forall j :: 0 <= j < i ==> buckets[j] == INVALID
        invariant lruHead == lruTail == INVALID
      {
        buckets[i] := INVALID;
      }
      order := [];
      chains := seq(buckets.Length, _ => []);
      assert Items(slots[..], order) == [];
    }

    // ---------------------------------------------------------------- the hash chains

    /** Walks a key's chain; no slot is visited twice. */
    method FindL1(key: K) returns (found: int)
      requires Valid()
      ensures -1 <= found < slots.Length
      ensures found < 0 ==> Cached(State().items, key).None?
      ensures found >= 0 ==> slots[found].valid && slots[found].item.key == key && found in order
                             && Cached(State().items, key) == Some(slots[found].item)
    {
      hide Filed, LinkedAt, Shown, Cached;
      ghost var chain := chains[hash(key) % buckets.Length];
      var idx := buckets[hash(key) % buckets.Length];
      assert Chained(slots[..], idx, chain);
      ghost var i := 0;
      while idx != INVALID
        invariant i <= |chain| && idx == At(chain, i)
        invariant forall j :: 0 <= j < i ==> !(slots[chain[j]].valid && slots[chain[j]].item.key == key)
        decreases |chain| - i
      {
        assert ChainedAt(slots[..], chain, i);
        if slots[idx].valid && slots[idx].item.key == key {
          FoundIn(slots[..], order, chains, hash, blank, idx);
          return idx;
        }
        idx := slots[idx].hashNext;
        i := i + 1;
      }
      NotFound(slots[..], order, chains, hash, blank, key);
      return -1;
    }

    method LinkHash(slot: nat)
      requires Linked() && slot < slots.Length && forall b :: 0 <= b < |chains| ==> slot !in chains[b]
      modifies slots, buckets, `chains
      ensures Linked() && SameButChains(old(slots[..]), slots[..])
      ensures forall i :: 0 <= i < slots.Length && i != slot ==> slots[i] == old(slots[i])
      ensures |chains| == |old(chains)|
      ensures forall b :: 0 <= b < |chains| ==>
                chains[b] == (if b == hash(slots[slot].item.key) % |chains| then [slot] else []) + old(chains)[b]
    {
      hide Chained, LinkedAt;
      var bucket := hash(slots[slot].item.key) % buckets.Length;
      ghost var was := slots[..];
      HashedFront(slots[..], buckets[..], chains, hash, slot);
      slots[slot] := slots[slot].(hashNext := buckets[bucket]);
      buckets[bucket] := slot;
      chains := chains[bucket := [slot] + chains[bucket]];
      ListedFrame(was, lruHead, lruTail, order, slots[..]);
    }

    /** Walks to the slot and links its chain past it. */
    method UnlinkHash(slot: nat)
      requires Linked() && slot < slots.Length && slot in chains[hash(slots[slot].item.key) % |chains|]
      modifies slots, buckets, `chains
      ensures Linked() && SameButChains(old(slots[..]), slots[..]) && slots[slot].hashNext == INVALID
      ensures |chains| == |old(chains)|
      ensures forall b, x {:trigger x in chains[b]} :: 0 <= b < |chains| ==>
                (x in chains[b] <==> x in old(chains)[b] && x != slot)
      ensures forall i :: 0 <= i < slots.Length && i !in old(chains)[hash(old(slots[slot]).item.key) % |chains|] ==>
                slots[i] == old(slots[i])
    {
      hide LinkedAt;
      var bucket := hash(slots[slot].item.key) % buckets.Length;
      ghost var chain, was := chains[bucket], slots[..];
      var idx := buckets[bucket];
      var prev := INVALID;
      ghost var i := 0;
      assert Chained(was, idx, chain);
      while idx != INVALID
        invariant i <= |chain| && idx == At(chain, i) && prev == At(chain, i - 1)
        invariant forall j :: 0 <= j < i ==> chain[j] != slot
        invariant slots[..] == was && buckets[..] == old(buckets[..]) && chains == old(chains)
        decreases |chain| - i
      {
        assert ChainedAt(was, chain, i);
        if idx == slot {
          UnlinkHashAt(slot, prev, bucket, i);
          return;
        }
        prev := idx;
        idx := slots[idx].hashNext;
        i := i + 1;
      }
      assert false;
    }

    method UnlinkHashAt(slot: nat, prev: nat, bucket: nat, ghost p: nat)
      requires Linked() && bucket < buckets.Length && p < |chains[bucket]|
      requires slot == chains[bucket][p] && slot < slots.Length && prev == At(chains[bucket], p - 1)
      modifies slots, buckets, `chains
      ensures Linked() && SameButChains(old(slots[..]), slots[..]) && slots[slot].hashNext == INVALID
      ensures |chains| == |old(chains)|
      ensures forall b, x {:trigger x in chains[b]} :: 0 <= b < |chains| ==>
                (x in chains[b] <==> x in old(chains)[b] && x != slot)
      ensures forall i :: 0 <= i < slots.Length && i !in old(chains)[bucket] ==> slots[i] == old(slots[i])
    {
      hide Listed, ChainedAt;
      ghost var was, chain := slots[..], chains[bucket];
      assert Chained(was, buckets[bucket], chain);
      assert ChainedAt(was, chain, p);
      if prev == INVALID {
        buckets[bucket] := slots[slot].hashNext;
      } else {
        slots[prev] := slots[prev].(hashNext := slots[slot].hashNext);
      }
      slots[slot] := slots[slot].(hashNext := INVALID);
      HashedUnlinked(was, old(buckets[..]), chains, hash, bucket, p, slots[..]);
      DropDistinct(chain, p);
      OthersWithout(was, old(buckets[..]), chains, hash, bucket, p);
      chains := chains[bucket := Dropped<nat>(chain, p)];
      ListedFrame(was, lruHead, lruTail, order, slots[..]);
    }

    // ---------------------------------------------------------------- the recency list

    method LinkLruFront(slot: nat)
      requires Linked() && slot < slots.Length && slot !in order
      modifies slots, `lruHead, `lruTail, `order
      ensures Linked() && order == [slot] + old(order) && SameButOrder(old(slots[..]), slots[..])
      ensures lruHead == slot
      ensures forall i :: 0 <= i < slots.Length && i != slot && i !in old(order) ==> slots[i] == old(slots[i])
    {
      hide LinkedAt, ChainedAt, Chained;
      ghost var was := slots[..];
      LinkedFrontLists(was, lruHead, lruTail, order, slot);
      slots[slot] := slots[slot].(prev := INVALID, next := lruHead);
      if lruHead != INVALID {
        slots[lruHead] := slots[lruHead].(prev := slot);
      }
      assert slots[..] == LinkedFront(was, slot, lruHead);
      lruHead := slot;
      if lruTail == INVALID {
        lruTail := slot;
      }
      order := [slot] + order;
      HashedFrame(was, buckets[..], chains, hash, slots[..]);
    }

    method UnlinkLru(slot: nat, ghost p: nat)
      requires Linked() && p < |order| && slot == order[p]
      modifies slots, `lruHead, `lruTail, `order
      ensures Linked() && order == Dropped<nat>(old(order), p) && SameButOrder(old(slots[..]), slots[..])
      ensures slots[slot].prev == slots[slot].next == INVALID
      ensures forall i :: 0 <= i < slots.Length && i !in old(order) ==> slots[i] == old(slots[i])
    {
      hide Listed, Hashed, Unlinked, Dropped, SameButOrder;
      ghost var was := slots[..];
      UnlinkedShape(was, lruHead, lruTail, order, p, buckets[..], chains, hash);
      var prev, next := slots[slot].prev, slots[slot].next;
      if prev != INVALID {
        slots[prev] := slots[prev].(next := next);
      } else {
        lruHead := next;
      }
      if next != INVALID {
        slots[next] := slots[next].(prev := prev);
      } else {
        lruTail := prev;
      }
      slots[slot] := slots[slot].(prev := INVALID, next := INVALID);
      UnlinkedIs(was, slots[..], slot);
      order := Dropped<nat>(order, p);
    }

    method Touch(slot: nat, ghost p: nat)
      requires Valid() && p < |order| && slot == order[p]
      modifies slots, `lruHead, `lruTail, `order
      ensures Valid() && old(p < |State().items|)
      ensures State() == old(Cache([State().items[p]] + Dropped(State().items, p), l2))
      ensures SameButOrder(old(slots[..]), slots[..])
    {
      hide Listed, Hashed, Coherent, Filed, Dropped, SameButOrder;
      ghost var was := slots[..];
      ListedInRange(was, lruHead, lruTail, order);
      ghost var c := State();
      TouchShape(was, lruHead, lruTail, order, slot, p);
      TouchedState(c, p);
      if slot == lruHead {
        FrontStays(c.items);
        SameOrderRefl(was);
        return;
      }
      UnlinkLru(slot, p);
      ghost var mid := slots[..];
      LinkLruFront(slot);
      SameOrderTrans(was, mid, slots[..]);
      ListedInRange(slots[..], lruHead, lruTail, order);
      Reordered(was, slots[..], old(order), p, chains, hash, blank);
      assert State() == Cache([c.items[p]] + Dropped(c.items, p), c.l2);
    }

    // ---------------------------------------------------------------- slots

    method FreeL1Slot() returns (found: int)
      requires Valid()
      ensures -1 <= found < slots.Length
      ensures found >= 0 ==> !slots[found].valid
      ensures found < 0 ==> |State().items| == slots.Length
      ensures found >= 0 ==> |State().items| < slots.Length
    {
      hide LinkedAt, Hashed, Coherent, Chained;
      FreeSlots(slots[..], order);
      for i := 0 to slots.Length
        invariant forall j :: 0 <= j < i ==> slots[j].valid
      {
        if !slots[i].valid {
          return i;
        }
      }
      return -1;
    }

    /** A slot leaves the cache; the backing map keeps what it has. */
    method RemoveL1Slot(slot: nat)
      requires Valid() && slot < slots.Length
      modifies slots, buckets, `lruHead, `lruTail, `order, `chains
      ensures Valid() && !slots[slot].valid
      ensures !old(slots[slot].valid) ==> State() == old(State())
      ensures old(slots[slot].valid) ==>
                var p := Position(old(State().items), old(slots[slot].item.key));
                p < |old(State().items)| && State() == Cache(Dropped(old(State().items), p), l2)
    {
      hide LinkedAt, Hashed, Coherent, Filed, Dropped, SameButOrder, SameButChains, Distinct, At, Position;
      if !slots[slot].valid {
        return;
      }
      ghost var was, c, wasChains := slots[..], State(), chains;
      ghost var p := PlaceOf(was, order, chains, hash, blank, slot, l2);
      UnlinkHash(slot);
      ghost var mid := slots[..];
      UnlinkLru(slot, p);
      ghost var unlinked := slots[..];
      slots[slot] := Blank(blank);
      RemovedShape(was, mid, unlinked, old(order), p, wasChains, chains, hash, blank);
      ResetSlot(unlinked, lruHead, lruTail, order, buckets[..], chains, hash, slot, Blank(blank));
      DropCoherent(c, p);
    }

    /** A free slot takes an item, most recent in the list and first in its chain. */
    method FillL1Slot(slot: nat, it: Item<K, V>)
      requires Valid() && slot < slots.Length && !slots[slot].valid && Cached(State().items, it.key).None?
      requires (it.inL2 <==> it.key in l2) && (!it.dirty ==> it.inL2 && l2[it.key] == it.value)
      modifies slots, buckets, `lruHead, `lruTail, `order, `chains
      ensures Valid() && State() == Cache([it] + old(State().items), l2)
    {
      hide Listed, Hashed, Coherent, Filed, SameButOrder, SameButChains, Cached;
      ghost var was, wasChains, wasOrder := slots[..], chains, order;
      ListedInRange(was, lruHead, lruTail, order);
      ghost var c := State();
      FreeIsUnlisted(was, order, chains, hash, blank, slot);
      ghost var to := Slot(it, true, INVALID, INVALID, INVALID);
      ResetSlot(was, lruHead, lruTail, order, buckets[..], chains, hash, slot, to);
      slots[slot] := Slot(it, true, INVALID, INVALID, INVALID);
      ghost var filled := slots[..];
      LinkHash(slot);
      ghost var mid := slots[..];
      LinkLruFront(slot);
      ListedInRange(slots[..], lruHead, lruTail, order);
      FilledShape(was, filled, mid, slots[..], wasOrder, slot, it, wasChains, chains, hash, blank);
      assert State() == Cache([it] + c.items, c.l2);
      FrontCoherent(c, it);
    }

    /** One write to the backing store: it has the value, or nothing happened. */
    method StorePut(key: K, value: V) returns (ok: bool)
      modifies `l2
      ensures l2 == if ok then old(l2)[key := value] else old(l2)
      ensures reliable ==> ok
    {
      ok := *;
      ok := ok || reliable;
      if ok {
        l2 := l2[key := value];
      }
    }

    method FlushL1Slot(slot: nat, ghost p: nat) returns (ok: bool)
      requires Valid() && p < |order| && slot == order[p]
      modifies slots, `l2
      ensures Valid() && SameButItems(old(slots[..]), slots[..])
      ensures State() == if ok then Flushed(old(State()), p) else old(State())
      ensures !old(slots[slot].item.dirty) || reliable ==> ok
    {
      hide Listed, Hashed, Filed, Coherent, Position, Flushed, SameButItems;
      ghost var was := slots[..];
      ListedInRange(was, lruHead, lruTail, order);
      FlushedSlot(was, lruHead, lruTail, order, buckets[..], chains, hash, blank, l2, p);
      var s := slots[slot];
      if !s.valid || !s.item.dirty {
        return true;
      }
      ok := StorePut(s.item.key, s.item.value);
      if !ok {
        return;
      }
      slots[slot] := s.(item := s.item.(dirty := false, inL2 := true));
    }

    /** A free slot, after writing back and evicting the least recent one if there is none. */
    method AllocateL1Slot() returns (slot: int, ghost wrote: bool)
      requires Valid()
      modifies slots, buckets, `lruHead, `lruTail, `l2, `order, `chains
      ensures Valid() && -1 <= slot < slots.Length && (reliable ==> wrote)
      ensures slot < 0 ==> Room(old(State()), slots.Length, wrote).None? && State() == old(State())
      ensures slot >= 0 ==> !slots[slot].valid && Room(old(State()), slots.Length, wrote) == Some(State())
    {
      hide LinkedAt, Hashed, Filed, Cached, Chained, Dropped, Flushed, Room, Position;
      wrote := true;
      RoomWhenFree(State(), slots.Length, true);
      slot := FreeL1Slot();
      if slot >= 0 {
        return;
      }
      if lruTail == INVALID {
        return -1, true;
      }
      var evict := lruTail;
      ghost var c, p := State(), |order| - 1;
      ListedTail(slots[..], order, p, c.items, chains, hash, blank);
      EvictedRoom(c, slots.Length);
      var flushed := FlushL1Slot(evict, p);
      wrote := flushed;
      if !flushed {
        return -1, flushed;
      }
      ListedTail(slots[..], order, p, State().items, chains, hash, blank);
      RemoveL1Slot(evict);
      return evict, wrote;
    }

    // ---------------------------------------------------------------- what callers use

    /** A put is the abstract put: it succeeds unless there is no room for the key, and changes nothing but the key. */
    method Put(key: K, value: V, priority: nat) returns (ok: bool, ghost wrote: bool)
      requires Valid()
      modifies slots, buckets, `lruHead, `lruTail, `l2, `order, `chains
      ensures Valid() && (reliable ==> wrote)
      ensures !open ==> !ok && State() == old(State())
      ensures open ==> (ok, State()) == Caches.Put(old(State()), slots.Length, key, value, priority, wrote)
      ensures Visible(State()) == if ok then Visible(old(State()))[key := value] else Visible(old(State()))
      ensures ok <==> open && (Cached(old(State()).items, key).Some? || HasRoom(old(State()), slots.Length, wrote))
      ensures ok ==> State().items != [] && State().items[0] == Item(key, value, priority, true, key in old(State()).l2)
    {
      hide LinkedAt, Hashed, Filed, Coherent, Visible, Chained, Dropped, Room, HasRoom;
      if !open {
        return false, true;
      }
      ghost var c := State();
      var l1 := FindL1(key);
      if l1 >= 0 {
        ghost var p := PlaceOf(slots[..], order, chains, hash, blank, l1, l2);
        var it := slots[l1].item.(value := value, priority := priority, dirty := true);
        UpdateItem(l1, p, it);
        Touch(l1, p);
        PutVisible(c, slots.Length, key, value, priority, true);
        PutCaches(c, slots.Length, key, value, priority, true);
        DroppedUpdate(c.items, p, it);
        return true, true;
      }
      var slot;
      slot, wrote := AllocateL1Slot();
      PutVisible(c, slots.Length, key, value, priority, wrote);
      PutCaches(c, slots.Length, key, value, priority, wrote);
      if slot < 0 {
        return false, wrote;
      }
      RoomInvisible(c, slots.Length, wrote);
      CachedPrefix(c.items, State().items, key);
      FillL1Slot(slot, Item(key, value, priority, true, key in l2));
      return true, wrote;
    }

    /** A cached item gets a new value; its slot keeps its places. */
    method UpdateItem(slot: nat, ghost p: nat, it: Item<K, V>)
      requires Valid() && p < |order| && slot == order[p] && slots[slot].valid
      requires it == slots[slot].item.(value := it.value, priority := it.priority, dirty := true)
      modifies slots
      ensures Valid() && State() == Cache(old(State().items)[p := it], l2)
      ensures slots[slot].item == it
    {
      hide LinkedAt, Hashed, Filed;
      ghost var was := slots[..];
      ItemReplaced(was, lruHead, lruTail, order, buckets[..], chains, hash, blank, slot, it);
      ItemsUpdate(was, order, p, it);
      slots[slot] := slots[slot].(item := it);
    }

    /** A get returns what is visible and changes nothing visible. */
    method Get(key: K) returns (found: Option<V>, ghost wrote: bool)
      requires Valid()
      modifies slots, buckets, `lruHead, `lruTail, `l2, `order, `chains
      ensures Valid() && (reliable ==> wrote)
      ensures !open ==> found == None && State() == old(State())
      ensures open ==> (found, State()) == Caches.Get(old(State()), slots.Length, key, wrote)
      ensures open ==> found == if key in Visible(old(State())) then Some(Visible(old(State()))[key]) else None
      ensures Visible(State()) == Visible(old(State()))
    {
      hide LinkedAt, Hashed, Filed, Coherent, Visible, Chained, Dropped, Room;
      if !open {
        return None, true;
      }
      ghost var c := State();
      var l1 := FindL1(key);
      if l1 >= 0 {
        ghost var p := PlaceOf(slots[..], order, chains, hash, blank, l1, l2);
        found := Some(slots[l1].item.value);
        Touch(l1, p);
        GetVisible(c, slots.Length, key, true);
        return found, true;
      }
      if key !in l2 {
        GetVisible(c, slots.Length, key, true);
        return None, true;
      }
      var value := l2[key];
      var slot;
      slot, wrote := AllocateL1Slot();
      GetVisible(c, slots.Length, key, wrote);
      if slot >= 0 {
        RoomInvisible(c, slots.Length, wrote);
        CachedPrefix(c.items, State().items, key);
        RoomKeeps(c, slots.Length, wrote, key);
        FillL1Slot(slot, Item(key, value, 0, false, true));
      }
      return Some(value), wrote;
    }

    /** A remove takes the key out of both levels. */
    method Remove(key: K) returns (ok: bool)
      requires Valid()
      modifies slots, buckets, `lruHead, `lruTail, `l2, `order, `chains
      ensures Valid() && ok == open
      ensures State() == if ok then Caches.Remove(old(State()), key) else old(State())
      ensures Visible(State()) == if ok then Visible(old(State())) - {key} else Visible(old(State()))
    {
      hide LinkedAt, Hashed, Filed, Visible, Chained, Dropped;
      if !open {
        return false;
      }
      ghost var c := State();
      RemoveVisible(c, key);
      var l1 := FindL1(key);
      var inL2;
      if l1 >= 0 {
        inL2 := slots[l1].item.inL2;
        RemoveL1Slot(l1);
      } else {
        inL2 := key in l2;
      }
      if inL2 {
        l2 := l2 - {key};
      }
      return true;
    }

    method Exists(key: K) returns (ok: bool)
      requires Valid()
      ensures ok <==> open && key in Visible(State())
    {
      hide LinkedAt, Hashed, Filed, Coherent, Visible, Chained;
      if !open {
        return false;
      }
      var l1 := FindL1(key);
      VisibleAt(State(), key);
      return l1 >= 0 || key in l2;
    }

    /** The number of visible keys: those of the backing map, and the cached ones it does not have. */
    method Size() returns (n: nat)
      requires Valid()
      ensures n == if open then |Visible(State())| else 0
    {
      hide LinkedAt, Hashed, Filed, Visible, Chained, Seen, Coherent, Distinct;
      if !open {
        return 0;
      }
      n := |l2|;
      SeenNone(slots[..], l2);
      for i := 0 to slots.Length
        invariant n == |Seen(slots[..], l2, i)|
      {
        SeenStep(slots[..], order, chains, hash, blank, l2, i);
        if slots[i].valid && !slots[i].item.inL2 {
          n := n + 1;
        }
      }
      SeenAll(slots[..], order, chains, hash, blank, l2);
    }

    /** Writes every dirty value back, from the last slot to the first; what a failing write leaves dirty is `stuck`. */
    method Sync() returns (ok: bool, ghost stuck: set<K>)
      requires Valid()
      modifies slots, `l2
      ensures Valid() && (reliable ==> stuck == {})
      ensures !open ==> !ok && State() == old(State())
      ensures open ==> ok == NoneStuck(old(State().items), stuck) && State() == Synced(old(State()), stuck)
      ensures Visible(State()) == Visible(old(State()))
      ensures ok ==>
                l2 == Visible(State()) && forall i :: 0 <= i < slots.Length && slots[i].valid ==> !slots[i].item.dirty
    {
      hide LinkedAt, Hashed, Filed, Visible, Chained, Synced, KeysBelow, Cached, Position, Distinct, At;
      stuck := {};
      if !open {
        return false, {};
      }
      ok := true;
      ghost var c := State();
      SyncNone(slots[..], order, chains, hash, blank, l2);
      SyncVisible(c, {});
      assert {} + KeysBelow(slots[..], slots.Length) == KeysBelow(slots[..], slots.Length);
      var i := slots.Length;
      while i > 0
        invariant 0 <= i <= slots.Length && Valid()
        invariant State() == Synced(c, stuck + KeysBelow(slots[..], i))
        invariant stuck !! KeysBelow(slots[..], i) && (reliable ==> stuck == {})
        invariant ok == NoneStuck(c.items, stuck)
      {
        i := i - 1;
        BelowStep(slots[..], order, chains, hash, blank, i);
        if !slots[i].valid {
          continue;
        }
        ghost var p := SyncStep(c, slots[..], order, chains, hash, blank, l2, stuck, i);
        if !slots[i].item.dirty {
          continue;
        }
        ghost var was := slots[..];
        var flushed := FlushL1Slot(i, p);
        BelowSame(was, slots[..], i);
        if !flushed {
          ghost var k := slots[i].item.key;
          assert stuck + {k} + KeysBelow(slots[..], i) == stuck + KeysBelow(was, i + 1);
          stuck := stuck + {k};
          ok := false;
        }
      }
      assert stuck + KeysBelow(slots[..], 0) == stuck by { BelowNone(slots[..]); }
      SyncVisible(c, stuck);
      AllListed(slots[..], order, chains, hash, blank);
    }

    method Clear()
      requires Valid()
      modifies slots, buckets, `lruHead, `lruTail, `l2, `order, `chains
      ensures Valid() && State() == if open then Cache([], map[]) else old(State())
      ensures open ==> Visible(State()) == map[]
    {
      if !open {
        return;
      }
      ResetL1();
      l2 := map[];
    }
  }
}
