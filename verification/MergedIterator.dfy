/** Iteration over a write-back cache: the backing map's entries with their cached values, then what only the cache
    has. */
module MergedIterators {
  import opened Records
  import opened Caches
  import opened SlotLists
  import opened SlotTables
  import opened TieredStores

  /** A listing has every entry of a map exactly once. */
  ghost predicate Lists<K, V>(listing: seq<(K, V)>, m: map<K, V>) {
    && (forall i, j :: 0 <= i < j < |listing| ==> listing[i].0 != listing[j].0)
    && (forall i :: 0 <= i < |listing| ==> listing[i].0 in m && m[listing[i].0] == listing[i].1)
    && (forall k :: k in m ==> exists i :: 0 <= i < |listing| && listing[i].0 == k)
  }

  /** The entries of the backing map from the `i`th on, each with its cached value if it has one. */
  ghost function Overridden<K, V>(c: Cache<K, V>, listing: seq<(K, V)>, i: nat): (r: seq<(K, V)>)
    requires i <= |listing|
    ensures |r| == |listing| - i
    decreases |listing| - i
  {
    if i == |listing| then []
    else
      var (k, v) := listing[i];
      [(k, match Cached(c.items, k) case Some(it) => it.value case None => v)] + Overridden(c, listing, i + 1)
  }

  /** What only the cache has, from the `i`th slot on. */
  ghost function Fresh<K, V>(s: Slots<K, V>, i: nat): seq<(K, V)>
    requires i <= |s|
    decreases |s| - i
  {
    if i == |s| then []
    else (if IsFresh(s, i) then [(s[i].item.key, s[i].item.value)] else []) + Fresh(s, i + 1)
  }

  ghost predicate IsFresh<K, V>(s: Slots<K, V>, i: nat) {
    i < |s| && s[i].valid && !s[i].item.inL2
  }

  lemma OverriddenStep<K, V>(c: Cache<K, V>, listing: seq<(K, V)>, i: nat, rest: seq<(K, V)>)
    requires i < |listing|
    ensures var o := Overridden(c, listing, i) + rest;
      && o != [] && o[1..] == Overridden(c, listing, i + 1) + rest
      && o[0] == (listing[i].0, match Cached(c.items, listing[i].0) case Some(it) => it.value case None => listing[i].1)
  {
  }

  lemma OverriddenEnd<K, V>(c: Cache<K, V>, listing: seq<(K, V)>, rest: seq<(K, V)>)
    ensures Overridden(c, listing, |listing|) + rest == rest
  {
  }

  lemma FreshStep<K, V>(s: Slots<K, V>, i: nat)
    requires i < |s|
    ensures IsFresh(s, i) ==>
              Fresh(s, i) != [] && Fresh(s, i)[0] == (s[i].item.key, s[i].item.value)
                && Fresh(s, i)[1..] == Fresh(s, i + 1)
    ensures !IsFresh(s, i) ==> Fresh(s, i) == Fresh(s, i + 1)
  {
  }

  lemma FreshInRange<K, V>(s: Slots<K, V>, i: nat)
    requires IsFresh(s, i)
    ensures i < |s|
  {
  }

  lemma FreshEnd<K, V>(s: Slots<K, V>)
    ensures Fresh(s, |s|) == []
  {
  }

  class MergedIterator<K(==, !new), V> {
    const parent: TieredStore<K, V>
    /** The backing store's own iteration, in its order. */
    const listing: seq<(K, V)>
    var l2Pos: nat
    var l1Slot: nat
    var inL1: bool
    var atEnd: bool
    var current: Option<(K, V)>

    ghost predicate Valid()
      reads this, parent, parent.slots, parent.buckets
    {
      && parent.Valid() && Lists(listing, parent.l2)
      && l2Pos <= |listing| && l1Slot <= parent.slots.Length
      && (!inL1 ==> l1Slot == 0)
    }

    /** The entries still to come, as far as the position says. */
    ghost function Pending(): seq<(K, V)>
      reads this, parent, parent.slots, parent.buckets
      requires Valid()
    {
      if inL1 then Fresh(parent.slots[..], l1Slot)
      else Overridden(parent.State(), listing, l2Pos) + Fresh(parent.slots[..], 0)
    }

    /** The entries still to come, starting with the current one. */
    ghost function Ahead(): seq<(K, V)>
      reads this, parent, parent.slots, parent.buckets
      requires Valid()
    {
      if atEnd then [] else Pending()
    }

    ghost predicate Ready()
      reads this, parent, parent.slots, parent.buckets
    {
      && Valid()
      && (!atEnd ==> Ahead() != [] && current == Some(Ahead()[0]))
      && (!atEnd ==> if inL1 then IsFresh(parent.slots[..], l1Slot) else l2Pos < |listing|)
    }

    /** Positions left to visit. */
    ghost function Remaining(): int
      reads this
    {
      |listing| - l2Pos + parent.slots.Length - l1Slot
    }

    constructor (parent: TieredStore<K, V>, listing: seq<(K, V)>)
      requires parent.Valid() && Lists(listing, parent.l2)
      ensures Ready() && this.parent == parent && this.listing == listing
      ensures Ahead() == if parent.open then Overridden(parent.State(), listing, 0) + Fresh(parent.slots[..], 0) else []
      ensures parent.open ==> Lists(Ahead(), Visible(parent.State()))
    {
      hide Overridden, Fresh, Filed, Hashed, Coherent, Lists, LinkedAt, Distinct, Cached, Visible;
      this.parent := parent;
      this.listing := listing;
      l2Pos, l1Slot, inL1, atEnd, current := 0, 0, false, true, None;
      new;
      if parent.open {
        MergedExact(parent.slots[..], parent.order, parent.chains, parent.hash, parent.blank, parent.l2, listing);
        LoadNext();
      }
    }

    /** One step: the current entry is over, and the position has moved on. */
    method Advance()
      requires Ready()
      modifies this
      ensures Ready() && Ahead() == if old(atEnd) then [] else old(Ahead())[1..]
      ensures !old(atEnd) ==> Remaining() < old(Remaining())
    {
      hide Overridden, Fresh, Filed, Hashed, Coherent, Lists, IsFresh, LinkedAt, Distinct;
      if atEnd {
        return;
      }
      if !inL1 {
        OverriddenStep(parent.State(), listing, l2Pos, Fresh(parent.slots[..], 0));
        l2Pos := l2Pos + 1;
      } else {
        FreshInRange(parent.slots[..], l1Slot);
        FreshStep(parent.slots[..], l1Slot);
        l1Slot := l1Slot + 1;
      }
      LoadNext();
    }

    method LoadNext()
      requires Valid()
      modifies this
      ensures Ready() && Ahead() == old(Pending()) && (atEnd <==> old(Pending()) == [])
      ensures Remaining() <= old(Remaining())
    {
      hide Overridden, Fresh, Filed, Hashed, Coherent, Lists, LinkedAt, Distinct, Cached;
      if !inL1 {
        if l2Pos == |listing| {
          OverriddenEnd(parent.State(), listing, Fresh(parent.slots[..], 0));
          inL1 := true;
        } else {
          OverriddenStep(parent.State(), listing, l2Pos, Fresh(parent.slots[..], 0));
          var (key, value) := listing[l2Pos];
          var l1 := parent.FindL1(key);
          if l1 >= 0 {
            current := Some((parent.slots[l1].item.key, parent.slots[l1].item.value));
          } else {
            current := Some((key, value));
          }
          atEnd := false;
          return;
        }
      }
      LoadFresh();
    }

    /** The L1 phase: the next slot the backing map does not have. */
    method LoadFresh()
      requires Valid() && inL1
      modifies this
      ensures Ready() && Ahead() == old(Pending()) && (atEnd <==> old(Pending()) == [])
      ensures Remaining() <= old(Remaining())
    {
      hide Overridden, Fresh, Filed, Hashed, Coherent, Lists, LinkedAt, Distinct;
      while l1Slot < parent.slots.Length
        invariant Valid() && inL1 && Pending() == old(Pending()) && Remaining() <= old(Remaining())
      {
        FreshStep(parent.slots[..], l1Slot);
        var s := parent.slots[l1Slot];
        if s.valid && !s.item.inL2 {
          current := Some((s.item.key, s.item.value));
          atEnd := false;
          return;
        }
        l1Slot := l1Slot + 1;
      }
      FreshEnd(parent.slots[..]);
      atEnd := true;
    }
  }

  lemma OverriddenAt<K, V>(c: Cache<K, V>, listing: seq<(K, V)>, i: nat, j: nat)
    requires i <= j < |listing|
    ensures Overridden(c, listing, i)[j - i]
         == (listing[j].0, match Cached(c.items, listing[j].0) case Some(it) => it.value case None => listing[j].1)
    decreases |listing| - i
  {
    if i < j {
      OverriddenAt(c, listing, i + 1, j);
      assert Overridden(c, listing, i)[1..] == Overridden(c, listing, i + 1);
    }
  }

  ghost predicate SlotsDiffer<K, V>(s: Slots<K, V>) {
    forall i, j :: 0 <= i < j < |s| && s[i].valid && s[j].valid ==> s[i].item.key != s[j].item.key
  }

  /** Every entry of the second phase is that of a slot, */
  lemma {:induction false} FreshOrigin<K, V>(s: Slots<K, V>, i: nat, p: nat) returns (j: nat)
    requires i <= |s| && p < |Fresh(s, i)|
    ensures i <= j < |s| && IsFresh(s, j) && Fresh(s, i)[p] == (s[j].item.key, s[j].item.value)
    decreases |s| - i
  {
    FreshStep(s, i);
    if IsFresh(s, i) && p == 0 {
      j := i;
    } else {
      j := FreshOrigin(s, i + 1, if IsFresh(s, i) then p - 1 else p);
    }
  }

  /** every such slot has an entry, */
  lemma {:induction false} FreshPlace<K, V>(s: Slots<K, V>, i: nat, j: nat) returns (p: nat)
    requires i <= j < |s| && IsFresh(s, j)
    ensures p < |Fresh(s, i)| && Fresh(s, i)[p] == (s[j].item.key, s[j].item.value)
    decreases |s| - i
  {
    FreshStep(s, i);
    if i == j {
      p := 0;
    } else {
      p := FreshPlace(s, i + 1, j);
      p := if IsFresh(s, i) then p + 1 else p;
    }
  }

  /** and no key comes up twice. */
  lemma {:induction false} FreshOnce<K, V>(s: Slots<K, V>, i: nat, p: nat, q: nat)
    requires i <= |s| && SlotsDiffer(s) && p < q < |Fresh(s, i)|
    ensures Fresh(s, i)[p].0 != Fresh(s, i)[q].0
    decreases |s| - i
  {
    FreshStep(s, i);
    if !IsFresh(s, i) {
      FreshOnce(s, i + 1, p, q);
    } else if p == 0 {
      var j := FreshOrigin(s, i + 1, q - 1);
    } else {
      FreshOnce(s, i + 1, p - 1, q - 1);
    }
  }

  /** The merged iteration has every visible entry exactly once, with its visible value. */
  lemma MergedExact<K, V>(s: Slots<K, V>, order: seq<nat>, chains: seq<seq<nat>>, hash: K -> nat, blank: Item<K, V>,
                          l2: map<K, V>, listing: seq<(K, V)>)
    requires InRange(order, |s|) && Filed(s, order, chains, hash, blank) && Coherent(Cache(Items(s, order), l2))
    requires Lists(listing, l2)
    ensures var c := Cache(Items(s, order), l2);
      Lists(Overridden(c, listing, 0) + Fresh(s, 0), Visible(c))
  {
    hide Filed, Coherent, Visible, Overridden, Fresh, InRange, Items;
    var c := Cache(Items(s, order), l2);
    var o, f := Overridden(c, listing, 0), Fresh(s, 0);
    forall i, j | 0 <= i < j < |s| && s[i].valid && s[j].valid
      ensures s[i].item.key != s[j].item.key
    {
      SlotCoherent(s, order, chains, hash, blank, l2, i);
      SlotKeysDiffer(s, order, chains, hash, blank, i, j);
    }
    forall p, q | 0 <= p < q < |f|
      ensures f[p].0 != f[q].0
    {
      FreshOnce(s, 0, p, q);
    }
    forall i | 0 <= i < |o|
      ensures o[i].0 == listing[i].0 && o[i].0 in Visible(c) && Visible(c)[o[i].0] == o[i].1
    {
      OverriddenAt(c, listing, 0, i);
      VisibleAt(c, listing[i].0);
    }
    forall p | 0 <= p < |f|
      ensures f[p].0 !in l2 && f[p].0 in Visible(c) && Visible(c)[f[p].0] == f[p].1
    {
      var j := FreshOrigin(s, 0, p);
      FreshShown(s, order, chains, hash, blank, l2, j);
    }
    forall k | k in Visible(c)
      ensures exists i :: 0 <= i < |o + f| && (o + f)[i].0 == k
    {
      VisibleAt(c, k);
      if k in l2 {
        var i :| 0 <= i < |listing| && listing[i].0 == k;
        assert (o + f)[i] == o[i];
      } else {
        var j := CachedSlot(s, order, chains, hash, blank, l2, k);
        var p := FreshPlace(s, 0, j);
        assert (o + f)[|o| + p] == f[p];
      }
    }
  }

  lemma FreshShown<K, V>(s: Slots<K, V>, order: seq<nat>, chains: seq<seq<nat>>, hash: K -> nat, blank: Item<K, V>,
                         l2: map<K, V>, j: nat)
    requires InRange(order, |s|) && Filed(s, order, chains, hash, blank) && Coherent(Cache(Items(s, order), l2))
    requires IsFresh(s, j)
    ensures var c := Cache(Items(s, order), l2);
      s[j].item.key !in l2 && s[j].item.key in Visible(c) && Visible(c)[s[j].item.key] == s[j].item.value
  {
  }

  lemma CachedSlot<K, V>(s: Slots<K, V>, order: seq<nat>, chains: seq<seq<nat>>, hash: K -> nat, blank: Item<K, V>,
                         l2: map<K, V>, k: K)
    returns (j: nat)
    requires InRange(order, |s|) && Filed(s, order, chains, hash, blank) && Coherent(Cache(Items(s, order), l2))
    requires Cached(Items(s, order), k).Some? && k !in l2
    ensures IsFresh(s, j) && s[j].item.key == k
  {
    hide Filed;
    var items := Items(s, order);
    var p := Position(items, k);
    j := order[p];
    ListedTail(s, order, p, items, chains, hash, blank);
  }
}
