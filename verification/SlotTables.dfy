/** What the cache's slots, lists and chains hold together. */
module SlotTables {
  import opened Records
  import opened Caches
  import opened SlotLists

  lemma FrontStays<T>(s: seq<T>)
    requires |s| > 0
    ensures [s[0]] + Dropped(s, 0) == s
  {
  }

  lemma SameOrderRefl<K, V>(s: Slots<K, V>)
    ensures SameButOrder(s, s)
  {
  }

  lemma SameOrderTrans<K, V>(s: Slots<K, V>, t: Slots<K, V>, u: Slots<K, V>)
    requires SameButOrder(s, t) && SameButOrder(t, u)
    ensures SameButOrder(s, u)
  {
  }

  lemma PlaceOf<K(!new), V>(s: Slots<K, V>, order: seq<nat>, chains: seq<seq<nat>>, hash: K -> nat, blank: Item<K, V>,
                            slot: nat, l2: map<K, V>)
    returns (p: nat)
    requires Filed(s, order, chains, hash, blank) && InRange(order, |s|) && slot < |s| && s[slot].valid
    requires Coherent(Cache(Items(s, order), l2))
    ensures p < |order| && order[p] == slot && Position(Items(s, order), s[slot].item.key) == p
    ensures slot in chains[hash(s[slot].item.key) % |chains|]
  {
    p := ItemPosition(s, order, slot);
  }

  lemma DropCoherent<K, V>(c: Cache<K, V>, p: nat)
    requires Coherent(c) && p < |c.items|
    ensures Coherent(Cache(Dropped(c.items, p), c.l2))
  {
  }

  /** A slot in no list can be reset. */
  lemma ResetSlot<K, V>(s: Slots<K, V>, head: nat, tail: nat, order: seq<nat>, heads: seq<nat>, chains: seq<seq<nat>>,
                        hash: K -> nat, slot: nat, to: Slot<K, V>)
    requires Listed(s, head, tail, order) && Hashed(s, heads, chains, hash) && slot < |s|
    requires slot !in order && forall b :: 0 <= b < |chains| ==> slot !in chains[b]
    ensures Listed(s[slot := to], head, tail, order) && Hashed(s[slot := to], heads, chains, hash)
  {
    hide LinkedAt, Chained;
    var t := s[slot := to];
    ListedFrame(s, head, tail, order, t);
    assert forall b, i :: 0 <= b < |chains| && 0 <= i < |chains[b]| ==> chains[b][i] in chains[b];
    HashedFrame(s, heads, chains, hash, t);
  }

  lemma RemovedShape<K, V>(s: Slots<K, V>, mid: Slots<K, V>, unlinked: Slots<K, V>, order: seq<nat>, p: nat,
                           chains: seq<seq<nat>>, after: seq<seq<nat>>, hash: K -> nat, blank: Item<K, V>)
    requires Filed(s, order, chains, hash, blank) && SameButChains(s, mid) && SameButOrder(mid, unlinked)
    requires Distinct(order) && InRange(order, |s|) && p < |order| && |after| == |chains|
    requires forall b, x {:trigger x in after[b]} :: 0 <= b < |chains| ==>
               (x in after[b] <==> x in chains[b] && x != order[p])
    requires forall i :: 0 <= i < |s| && i !in chains[hash(s[order[p]].item.key) % |chains|] ==> mid[i] == s[i]
    requires forall i :: 0 <= i < |s| && i !in order ==> unlinked[i] == mid[i]
    ensures var t := unlinked[order[p] := Blank(blank)];
      && InRange(Dropped<nat>(order, p), |s|) && order[p] !in Dropped<nat>(order, p)
      && Filed(t, Dropped<nat>(order, p), after, hash, blank)
      && Items(t, Dropped<nat>(order, p)) == Dropped(Items(s, order), p)
  {
    var slot, rest := order[p], Dropped<nat>(order, p);
    var t := unlinked[slot := Blank(blank)];
    DropDistinct(order, p);
    ItemsDrop(s, order, p);
    assert forall i :: 0 <= i < |s| ==> mid[i].item == s[i].item && mid[i].valid == s[i].valid;
    assert forall i :: 0 <= i < |s| ==> unlinked[i].item == mid[i].item && unlinked[i].valid == mid[i].valid;
    ItemsFrame(s, t, rest);
  }

  lemma TouchShape<K, V>(s: Slots<K, V>, head: nat, tail: nat, order: seq<nat>, slot: nat, p: nat)
    requires Listed(s, head, tail, order) && p < |order| && slot == order[p]
    ensures slot == head <==> p == 0
    ensures InRange(order, |s|) && Distinct(order) && slot < |s| && slot !in Dropped<nat>(order, p)
    ensures forall x :: x in [slot] + Dropped<nat>(order, p) <==> x in order
  {
  }

  lemma TouchedState<K(!new), V>(c: Cache<K, V>, p: nat)
    requires Coherent(c) && p < |c.items|
    ensures Coherent(Cache([c.items[p]] + Dropped(c.items, p), c.l2))
  {
  }

  lemma Reordered<K, V>(s: Slots<K, V>, t: Slots<K, V>, order: seq<nat>, p: nat, chains: seq<seq<nat>>,
                        hash: K -> nat, blank: Item<K, V>)
    requires Filed(s, order, chains, hash, blank) && SameButOrder(s, t)
    requires Distinct(order) && InRange(order, |s|) && p < |order|
    requires forall i :: 0 <= i < |s| && i !in order ==> t[i] == s[i]
    ensures InRange([order[p]] + Dropped<nat>(order, p), |t|)
    ensures Filed(t, [order[p]] + Dropped<nat>(order, p), chains, hash, blank)
    ensures Items(t, [order[p]] + Dropped<nat>(order, p)) == [s[order[p]].item] + Dropped(Items(s, order), p)
  {
    var slot, rest := order[p], Dropped<nat>(order, p);
    DropDistinct(order, p);
    ItemsDrop(s, order, p);
    assert forall i :: 0 <= i < |s| ==>
           t[i].item == s[i].item && t[i].valid == s[i].valid && t[i].hashNext == s[i].hashNext;
    ItemsFront(s, t, rest, slot);
    var after := [slot] + rest;
    assert forall x :: x in after <==> x in order;
  }

  lemma FoundIn<K, V>(s: Slots<K, V>, order: seq<nat>, chains: seq<seq<nat>>, hash: K -> nat, blank: Item<K, V>,
                      slot: nat)
    requires Filed(s, order, chains, hash, blank) && InRange(order, |s|) && slot < |s| && s[slot].valid
    requires DistinctKeys(Items(s, order))
    ensures slot in order && Cached(Items(s, order), s[slot].item.key) == Some(s[slot].item)
  {
  }

  lemma NotFound<K, V>(s: Slots<K, V>, order: seq<nat>, chains: seq<seq<nat>>, hash: K -> nat, blank: Item<K, V>,
                       key: K)
    requires Filed(s, order, chains, hash, blank) && InRange(order, |s|)
    requires var chain := chains[hash(key) % |chains|];
      forall j :: 0 <= j < |chain| ==> chain[j] < |s| && !(s[chain[j]].valid && s[chain[j]].item.key == key)
    ensures Cached(Items(s, order), key).None?
  {
  }

  /** No other chain has the slot. */
  lemma OthersWithout<K, V>(s: Slots<K, V>, heads: seq<nat>, chains: seq<seq<nat>>, hash: K -> nat, b: nat, p: nat)
    requires Hashed(s, heads, chains, hash) && b < |chains| && p < |chains[b]|
    ensures forall c :: 0 <= c < |chains| && c != b ==> chains[b][p] !in chains[c]
  {
  }

  lemma FreeIsUnlisted<K, V>(s: Slots<K, V>, order: seq<nat>, chains: seq<seq<nat>>, hash: K -> nat,
                             blank: Item<K, V>, slot: nat)
    requires Filed(s, order, chains, hash, blank) && slot < |s| && !s[slot].valid
    ensures slot !in order && forall b :: 0 <= b < |chains| ==> slot !in chains[b]
  {
  }

  lemma FilledShape<K, V>(s: Slots<K, V>, filled: Slots<K, V>, mid: Slots<K, V>, linked: Slots<K, V>,
                          order: seq<nat>, slot: nat, it: Item<K, V>, chains: seq<seq<nat>>, after: seq<seq<nat>>,
                          hash: K -> nat, blank: Item<K, V>)
    requires Filed(s, order, chains, hash, blank) && InRange(order, |s|) && slot < |s| && slot !in order
    requires filled == s[slot := Slot(it, true, INVALID, INVALID, INVALID)]
    requires SameButChains(filled, mid) && SameButOrder(mid, linked) && |after| == |chains|
    requires forall i :: 0 <= i < |s| && i != slot ==> mid[i] == filled[i]
    requires forall i :: 0 <= i < |s| && i != slot && i !in order ==> linked[i] == mid[i]
    requires forall b :: 0 <= b < |chains| ==>
               after[b] == (if b == hash(mid[slot].item.key) % |chains| then [slot] else []) + chains[b]
    ensures InRange([slot] + order, |linked|)
    ensures Filed(linked, [slot] + order, after, hash, blank)
    ensures Items(linked, [slot] + order) == [it] + Items(s, order)
  {
    assert forall i :: 0 <= i < |s| ==> linked[i].item == filled[i].item && linked[i].valid == filled[i].valid;
    ItemsFront(s, linked, order, slot);
  }

  lemma FrontCoherent<K(!new), V>(c: Cache<K, V>, it: Item<K, V>)
    requires Coherent(c) && Cached(c.items, it.key).None?
    requires (it.inL2 <==> it.key in c.l2) && (!it.dirty ==> it.inL2 && c.l2[it.key] == it.value)
    ensures Coherent(Cache([it] + c.items, c.l2))
  {
  }

  /** Only flags and values of items differ. */
  ghost predicate SameButItems<K, V>(s: Slots<K, V>, t: Slots<K, V>) {
    && |s| == |t|
    && forall i :: 0 <= i < |s| ==> t[i] == s[i].(item := t[i].item) && t[i].item.key == s[i].item.key
  }

  /** The last item of a full list is that of its last slot. */
  lemma ListedTail<K, V>(s: Slots<K, V>, order: seq<nat>, p: nat, items: seq<Item<K, V>>, chains: seq<seq<nat>>,
                         hash: K -> nat, blank: Item<K, V>)
    requires InRange(order, |s|) && Filed(s, order, chains, hash, blank) && p < |order| && items == Items(s, order)
    requires DistinctKeys(items)
    ensures s[order[p]].valid && s[order[p]].item == items[p] && Position(items, s[order[p]].item.key) == p
  {
  }

  lemma ListedInRange<K, V>(s: Slots<K, V>, head: nat, tail: nat, order: seq<nat>)
    requires Listed(s, head, tail, order)
    ensures InRange(order, |s|) && forall p :: 0 <= p < |order| ==> order[p] < |s|
  {
  }

  /** Writing a listed item back keeps the tables, and is the abstract write-back. */
  lemma FlushedSlot<K(!new), V>(s: Slots<K, V>, head: nat, tail: nat, order: seq<nat>, heads: seq<nat>,
                                chains: seq<seq<nat>>, hash: K -> nat, blank: Item<K, V>, l2: map<K, V>, p: nat)
    requires Listed(s, head, tail, order) && Hashed(s, heads, chains, hash) && Filed(s, order, chains, hash, blank)
    requires p < |order| && order[p] < |s| && InRange(order, |s|) && Coherent(Cache(Items(s, order), l2))
    ensures s[order[p]].valid && SameButItems(s, s)
    ensures !s[order[p]].item.dirty ==> Flushed(Cache(Items(s, order), l2), p) == Cache(Items(s, order), l2)
    ensures s[order[p]].item.dirty ==>
              var it := s[order[p]].item.(dirty := false, inL2 := true);
              var t, l := s[order[p] := s[order[p]].(item := it)], l2[it.key := it.value];
              && Listed(t, head, tail, order) && Hashed(t, heads, chains, hash) && Filed(t, order, chains, hash, blank)
              && Cache(Items(t, order), l) == Flushed(Cache(Items(s, order), l2), p)
                 && Coherent(Cache(Items(t, order), l))
              && SameButItems(s, t)
  {
    hide Listed, Hashed, Filed, Coherent, Flushed;
    FlushedItem(s, order, chains, hash, blank, l2, p, head, tail);
    if s[order[p]].item.dirty {
      var it := s[order[p]].item.(dirty := false, inL2 := true);
      ItemReplaced(s, head, tail, order, heads, chains, hash, blank, order[p], it);
    }
  }

  lemma FlushedItem<K(!new), V>(s: Slots<K, V>, order: seq<nat>, chains: seq<seq<nat>>, hash: K -> nat,
                                blank: Item<K, V>, l2: map<K, V>, p: nat, head: nat, tail: nat)
    requires Listed(s, head, tail, order) && Filed(s, order, chains, hash, blank)
    requires p < |order| && order[p] < |s| && InRange(order, |s|) && Coherent(Cache(Items(s, order), l2))
    ensures s[order[p]].valid
    ensures !s[order[p]].item.dirty ==> Flushed(Cache(Items(s, order), l2), p) == Cache(Items(s, order), l2)
    ensures s[order[p]].item.dirty ==>
              var it := s[order[p]].item.(dirty := false, inL2 := true);
              var t, l := s[order[p] := s[order[p]].(item := it)], l2[it.key := it.value];
              Cache(Items(t, order), l) == Flushed(Cache(Items(s, order), l2), p) && Coherent(Cache(Items(t, order), l))
  {
    hide LinkedAt, Coherent, Items;
    FlushInvisible(Cache(Items(s, order), l2), p);
    assert order[p] in order;
    if s[order[p]].item.dirty {
      ItemsUpdate(s, order, p, s[order[p]].item.(dirty := false, inL2 := true));
    }
  }

  lemma RoomWhenFree<K, V>(c: Cache<K, V>, capacity: nat, wrote: bool)
    ensures |c.items| < capacity ==> Room(c, capacity, wrote) == Some(c)
    ensures |c.items| >= capacity && c.items == [] ==> Room(c, capacity, wrote).None?
  {
  }

  /** Making room in a full cache is writing its last item back and dropping it. */
  lemma EvictedRoom<K, V>(c: Cache<K, V>, capacity: nat)
    requires 0 < |c.items| && |c.items| >= capacity
    ensures var p := |c.items| - 1;
      && (!c.items[p].dirty ==> Flushed(c, p) == c)
      && (c.items[p].dirty ==> Room(c, capacity, false).None?)
      && (var f := Flushed(c, p);
          |f.items| == |c.items| && Room(c, capacity, true) == Some(Cache(Dropped(f.items, p), f.l2)))
  {
    var p := |c.items| - 1;
    assert Dropped(Flushed(c, p).items, p) == c.items[..p];
  }

  lemma DroppedUpdate<T>(s: seq<T>, p: nat, x: T)
    requires p < |s|
    ensures Dropped(s[p := x], p) == Dropped(s, p)
  {
  }

  /** Making room loses no key of the backing map, and changes only the evicted one. */
  lemma RoomKeeps<K, V>(c: Cache<K, V>, capacity: nat, wrote: bool, k: K)
    requires Room(c, capacity, wrote).Some? && Cached(c.items, k).None? && k in c.l2
    ensures var l2 := Room(c, capacity, wrote).value.l2;
      k in l2 && l2[k] == c.l2[k]
  {
  }

  /** The keys of the backing map, and those of the first `n` slots that it does not have. */
  ghost function Seen<K, V>(s: Slots<K, V>, l2: map<K, V>, n: nat): set<K>
    requires n <= |s|
  {
    l2.Keys + set i | 0 <= i < n && s[i].valid && !s[i].item.inL2 :: s[i].item.key
  }

  lemma SeenNone<K, V>(s: Slots<K, V>, l2: map<K, V>)
    ensures |Seen(s, l2, 0)| == |l2|
  {
  }

  /** Different valid slots hold different keys. */
  lemma SlotKeysDiffer<K, V>(s: Slots<K, V>, order: seq<nat>, chains: seq<seq<nat>>, hash: K -> nat, blank: Item<K, V>,
                             i: nat, j: nat)
    requires InRange(order, |s|) && Filed(s, order, chains, hash, blank) && DistinctKeys(Items(s, order))
    requires i < |s| && j < |s| && s[i].valid && s[j].valid && i != j
    ensures s[i].item.key != s[j].item.key
  {
  }

  lemma SeenStep<K, V>(s: Slots<K, V>, order: seq<nat>, chains: seq<seq<nat>>, hash: K -> nat, blank: Item<K, V>,
                       l2: map<K, V>, n: nat)
    requires InRange(order, |s|) && Filed(s, order, chains, hash, blank) && Coherent(Cache(Items(s, order), l2))
               && n < |s|
    ensures |Seen(s, l2, n + 1)| == |Seen(s, l2, n)| + (if s[n].valid && !s[n].item.inL2 then 1 else 0)
  {
    hide Filed, Coherent, Seen, Items;
    SlotCoherent(s, order, chains, hash, blank, l2, n);
    if s[n].valid && !s[n].item.inL2 {
      forall i | 0 <= i < n && s[i].valid
        ensures s[i].item.key != s[n].item.key
      {
        SlotKeysDiffer(s, order, chains, hash, blank, i, n);
      }
    }
    SeenNext(s, l2, n);
  }

  lemma SeenNext<K, V>(s: Slots<K, V>, l2: map<K, V>, n: nat)
    requires n < |s|
    ensures !(s[n].valid && !s[n].item.inL2) ==> Seen(s, l2, n + 1) == Seen(s, l2, n)
    ensures s[n].valid && !s[n].item.inL2 ==> Seen(s, l2, n + 1) == Seen(s, l2, n) + {s[n].item.key}
    ensures s[n].item.key !in l2 && (forall i :: 0 <= i < n && s[i].valid ==> s[i].item.key != s[n].item.key) ==>
              s[n].item.key !in Seen(s, l2, n)
  {
  }

  lemma SlotCoherent<K, V>(s: Slots<K, V>, order: seq<nat>, chains: seq<seq<nat>>, hash: K -> nat, blank: Item<K, V>,
                           l2: map<K, V>, n: nat)
    requires InRange(order, |s|) && Filed(s, order, chains, hash, blank) && Coherent(Cache(Items(s, order), l2))
               && n < |s|
    ensures DistinctKeys(Items(s, order))
    ensures s[n].valid ==> (s[n].item.inL2 <==> s[n].item.key in l2)
  {
  }

  lemma SeenAll<K, V>(s: Slots<K, V>, order: seq<nat>, chains: seq<seq<nat>>, hash: K -> nat, blank: Item<K, V>,
                      l2: map<K, V>)
    requires InRange(order, |s|) && Filed(s, order, chains, hash, blank) && Coherent(Cache(Items(s, order), l2))
    ensures |Seen(s, l2, |s|)| == |Visible(Cache(Items(s, order), l2))|
  {
    hide Filed;
    var c := Cache(Items(s, order), l2);
    VisibleKeys(c);
    forall k
      ensures k in Seen(s, l2, |s|) <==> k in Visible(c)
    {
      if k in Seen(s, l2, |s|) && k !in l2 {
        var i :| 0 <= i < |s| && s[i].valid && !s[i].item.inL2 && s[i].item.key == k;
        ValidIsListed(s, order, chains, hash, blank, i);
        var p := ItemPosition(s, order, i);
      }
      if k in Visible(c) && k !in l2 {
        var p := Position(c.items, k);
        ListedTail(s, order, p, c.items, chains, hash, blank);
        assert s[order[p]].item.key == k;
      }
    }
    assert Seen(s, l2, |s|) == Visible(c).Keys;
    assert |Visible(c).Keys| == |Visible(c)|;
  }

  lemma ValidIsListed<K, V>(s: Slots<K, V>, order: seq<nat>, chains: seq<seq<nat>>, hash: K -> nat,
                            blank: Item<K, V>, i: nat)
    requires Filed(s, order, chains, hash, blank) && i < |s| && s[i].valid
    ensures i in order
  {
  }

  lemma VisibleKeys<K, V>(c: Cache<K, V>)
    ensures forall k :: k in Visible(c) <==> k in c.l2 || Cached(c.items, k).Some?
  {
  }

  /** The keys of the first `n` slots. */
  ghost function KeysBelow<K, V>(s: Slots<K, V>, n: nat): set<K>
    requires n <= |s|
  {
    set i | 0 <= i < n && s[i].valid :: s[i].item.key
  }

  lemma BelowNone<K, V>(s: Slots<K, V>)
    ensures KeysBelow(s, 0) == {}
  {
  }

  lemma BelowStep<K, V>(s: Slots<K, V>, order: seq<nat>, chains: seq<seq<nat>>, hash: K -> nat, blank: Item<K, V>,
                        n: nat)
    requires InRange(order, |s|) && Filed(s, order, chains, hash, blank) && DistinctKeys(Items(s, order)) && n < |s|
    ensures !s[n].valid ==> KeysBelow(s, n + 1) == KeysBelow(s, n)
    ensures s[n].valid ==> KeysBelow(s, n + 1) == KeysBelow(s, n) + {s[n].item.key} && s[n].item.key !in KeysBelow(s, n)
  {
  }

  lemma BelowSame<K, V>(s: Slots<K, V>, t: Slots<K, V>, n: nat)
    requires SameButItems(s, t) && n <= |s|
    ensures KeysBelow(t, n) == KeysBelow(s, n)
  {
  }

  /** As long as no slot has been visited nothing is written. */
  lemma SyncNone<K, V>(s: Slots<K, V>, order: seq<nat>, chains: seq<seq<nat>>, hash: K -> nat, blank: Item<K, V>,
                       l2: map<K, V>)
    requires InRange(order, |s|) && Filed(s, order, chains, hash, blank) && Coherent(Cache(Items(s, order), l2))
    ensures var c := Cache(Items(s, order), l2);
      Synced(c, KeysBelow(s, |s|)) == c
  {
    hide Filed;
    var c, all := Cache(Items(s, order), l2), KeysBelow(s, |s|);
    forall p | 0 <= p < |order|
      ensures c.items[p].key in all
    {
      ListedTail(s, order, p, c.items, chains, hash, blank);
    }
    assert Synced(c, all).items == c.items;
    assert Written(c.items, all) == map[];
  }

  /** Writing back the slot the sync has come to. */
  lemma SyncStep<K(!new), V>(c: Cache<K, V>, s: Slots<K, V>, order: seq<nat>, chains: seq<seq<nat>>, hash: K -> nat,
                             blank: Item<K, V>, l2: map<K, V>, stuck: set<K>, i: nat)
    returns (p: nat)
    requires InRange(order, |s|) && Filed(s, order, chains, hash, blank) && i < |s| && s[i].valid
    requires Coherent(c) && Coherent(Cache(Items(s, order), l2))
    requires Cache(Items(s, order), l2) == Synced(c, stuck + KeysBelow(s, i + 1)) && stuck !! KeysBelow(s, i + 1)
    ensures p < |order| && order[p] == i
    ensures var d := Cache(Items(s, order), l2);
      && Flushed(d, p) == Synced(c, stuck + KeysBelow(s, i))
      && (s[i].item.dirty ==> p < |c.items| && c.items[p].dirty && c.items[p].key == s[i].item.key)
      && (!s[i].item.dirty ==> Flushed(d, p) == d)
  {
    hide Filed, Written;
    BelowStep(s, order, chains, hash, blank, i);
    var k := s[i].item.key;
    var before := stuck + KeysBelow(s, i + 1);
    ValidIsListed(s, order, chains, hash, blank, i);
    p := ItemPosition(s, order, i);
    assert c.items[p].key == k;
    SyncOne(c, before, p);
    assert before - {k} == stuck + KeysBelow(s, i);
  }

  lemma AllListed<K, V>(s: Slots<K, V>, order: seq<nat>, chains: seq<seq<nat>>, hash: K -> nat, blank: Item<K, V>)
    requires InRange(order, |s|) && Filed(s, order, chains, hash, blank)
    ensures (forall p :: 0 <= p < |order| ==> !Items(s, order)[p].dirty) ==>
              forall i :: 0 <= i < |s| && s[i].valid ==> !s[i].item.dirty
  {
    forall i | 0 <= i < |s| && s[i].valid
      ensures exists p :: 0 <= p < |order| && Items(s, order)[p] == s[i].item
    {
      var p :| 0 <= p < |order| && order[p] == i;
      assert Items(s, order)[p] == s[i].item;
    }
  }
}
