/** Intrusive lists over a fixed slot array: the shapes the cache's links must keep. */
module SlotLists {
  import opened Caches
  import opened Records
  import opened Sets

  const INVALID: nat := 0xFFFF

  /** One cache slot, with its links in the recency list and in its hash chain. */
  datatype Slot<K, V> = Slot(item: Item<K, V>, valid: bool, prev: nat, next: nat, hashNext: nat)

  type Slots<K, V> = seq<Slot<K, V>>

  /** The slot at position `i` of a list, or INVALID off either end. */
  function At(order: seq<nat>, i: int): nat {
    if 0 <= i < |order| then order[i] else INVALID
  }

  ghost predicate Distinct(s: seq<nat>) {
    forall i, j :: 0 <= i < j < |s| ==> s[i] != s[j]
  }

  ghost predicate InRange(s: seq<nat>, n: nat) {
    forall i :: 0 <= i < |s| ==> s[i] < n
  }

  /** `prev` and `next` link exactly the slots of `order`, in that order, both ways. */
  ghost predicate Listed<K, V>(s: Slots<K, V>, head: nat, tail: nat, order: seq<nat>) {
    && |s| < INVALID && Distinct(order) && InRange(order, |s|)
    && head == At(order, 0) && tail == At(order, |order| - 1)
    && forall i :: 0 <= i < |order| ==> LinkedAt(s, order, i)
  }

  ghost predicate LinkedAt<K, V>(s: Slots<K, V>, order: seq<nat>, i: int)
    requires 0 <= i < |order| && order[i] < |s|
  {
    s[order[i]].prev == At(order, i - 1) && s[order[i]].next == At(order, i + 1)
  }

  /** `hashNext` links exactly the slots of `chain`, in that order. */
  ghost predicate Chained<K, V>(s: Slots<K, V>, head: nat, chain: seq<nat>) {
    && |s| < INVALID && Distinct(chain) && InRange(chain, |s|)
    && head == At(chain, 0)
    && forall i :: 0 <= i < |chain| ==> ChainedAt(s, chain, i)
  }

  ghost predicate ChainedAt<K, V>(s: Slots<K, V>, chain: seq<nat>, i: int)
    requires 0 <= i < |chain| && chain[i] < |s|
  {
    s[chain[i]].hashNext == At(chain, i + 1)
  }

  lemma DropDistinct(s: seq<nat>, p: nat)
    requires p < |s| && Distinct(s)
    ensures Distinct(Dropped<nat>(s, p))
    ensures forall x :: x in Dropped<nat>(s, p) <==> x in s && x != s[p]
  {
  }

  lemma DropAt(s: seq<nat>, p: nat, i: int)
    requires p < |s|
    ensures At(Dropped<nat>(s, p), i) == if i < p then At(s, i) else At(s, i + 1)
  {
  }

  lemma Once(s: seq<nat>, i: nat, j: nat)
    requires Distinct(s) && i < |s| && j < |s|
    ensures s[i] == s[j] <==> i == j
  {
  }

  // ---------------------------------------------------------------- the recency list

  /** The slots with the neighbours of `slot` linked past it. */
  function Unlinked<K, V>(s: Slots<K, V>, slot: nat): (t: Slots<K, V>)
    requires slot < |s| <= INVALID
    requires (s[slot].prev < |s| || s[slot].prev == INVALID) && (s[slot].next < |s| || s[slot].next == INVALID)
    ensures |t| == |s|
  {
    var prev, next := s[slot].prev, s[slot].next;
    var a := if prev != INVALID then s[prev := s[prev].(next := next)] else s;
    var b := if next != INVALID then a[next := a[next].(prev := prev)] else a;
    b[slot := b[slot].(prev := INVALID, next := INVALID)]
  }

  /** The neighbours of a listed slot. */
  lemma Neighbours<K, V>(s: Slots<K, V>, head: nat, tail: nat, order: seq<nat>, p: nat)
    requires Listed(s, head, tail, order) && p < |order|
    ensures var slot := s[order[p]];
      && (slot.prev < |s| || slot.prev == INVALID) && (slot.next < |s| || slot.next == INVALID)
      && (slot.prev == INVALID <==> p == 0) && (slot.next == INVALID <==> p == |order| - 1)
      && (p > 0 ==> slot.prev == order[p - 1]) && (p + 1 < |order| ==> slot.next == order[p + 1])
  {
    assert LinkedAt(s, order, p);
  }

  /** What linking a slot out does to the others: only its two neighbours change. */
  lemma UnlinkedAt<K, V>(s: Slots<K, V>, head: nat, tail: nat, order: seq<nat>, p: nat, q: nat)
    requires Listed(s, head, tail, order) && p < |order| && q < |order| && q != p
    ensures var slot := s[order[p]];
      && (slot.prev < |s| || slot.prev == INVALID) && (slot.next < |s| || slot.next == INVALID)
      && var t := Unlinked(s, order[p])[order[q]];
         && t.prev == (if q == p + 1 then slot.prev else s[order[q]].prev)
         && t.next == (if q == p - 1 then slot.next else s[order[q]].next)
  {
    Neighbours(s, head, tail, order, p);
    Once(order, p, q);
    if p > 0 {
      Once(order, p - 1, q);
      Once(order, p - 1, p);
    }
    if p + 1 < |order| {
      Once(order, p + 1, q);
      Once(order, p + 1, p);
    }
  }

  lemma UnlinkedStep<K, V>(s: Slots<K, V>, head: nat, tail: nat, order: seq<nat>, p: nat, i: nat)
    requires Listed(s, head, tail, order) && p < |order| && i < |order| - 1
    ensures Dropped<nat>(order, p)[i] < |s|
    ensures s[order[p]].prev < |s| || s[order[p]].prev == INVALID
    ensures s[order[p]].next < |s| || s[order[p]].next == INVALID
    ensures LinkedAt(Unlinked(s, order[p]), Dropped<nat>(order, p), i)
  {
    hide Unlinked, Dropped, Distinct;
    var q := if i < p then i else i + 1;
    DropAt(order, p, i - 1);
    DropAt(order, p, i);
    DropAt(order, p, i + 1);
    UnlinkedAt(s, head, tail, order, p, q);
    assert LinkedAt(s, order, q) && LinkedAt(s, order, p);
  }

  /** Linking a slot past its neighbours takes exactly it out of the list. */
  lemma UnlinkedLists<K, V>(s: Slots<K, V>, head: nat, tail: nat, order: seq<nat>, p: nat)
    requires Listed(s, head, tail, order) && p < |order|
    ensures var slot := s[order[p]];
      && (slot.prev < |s| || slot.prev == INVALID) && (slot.next < |s| || slot.next == INVALID)
      && Listed(Unlinked(s, order[p]), if p == 0 then slot.next else head,
                if p == |order| - 1 then slot.prev else tail, Dropped<nat>(order, p))
  {
    hide Unlinked, Dropped, LinkedAt;
    Neighbours(s, head, tail, order, p);
    var d := Dropped<nat>(order, p);
    DropDistinct(order, p);
    forall i | 0 <= i < |d|
      ensures d[i] < |s| && LinkedAt(Unlinked(s, order[p]), d, i)
    {
      UnlinkedStep(s, head, tail, order, p, i);
    }
    DropAt(order, p, 0);
    DropAt(order, p, |d| - 1);
  }

  /** Linking a slot out leaves a list without it, and all chains as they were. */
  lemma UnlinkedShape<K, V>(s: Slots<K, V>, head: nat, tail: nat, order: seq<nat>, p: nat,
                            heads: seq<nat>, chains: seq<seq<nat>>, hash: K -> nat)
    requires Listed(s, head, tail, order) && Hashed(s, heads, chains, hash) && p < |order|
    ensures InRange(order, |s|)
    ensures var slot := s[order[p]];
      && (slot.prev < |s| || slot.prev == INVALID) && (slot.next < |s| || slot.next == INVALID)
      && |s| < INVALID && slot.prev != order[p] && slot.next != order[p]
      && (slot.prev != INVALID ==> slot.prev != slot.next)
    ensures var slot, t := s[order[p]], Unlinked(s, order[p]);
      && Listed(t, if slot.prev == INVALID then slot.next else head, if slot.next == INVALID then slot.prev else tail,
                Dropped<nat>(order, p))
      && Hashed(t, heads, chains, hash) && SameButOrder(s, t)
      && t[order[p]].prev == t[order[p]].next == INVALID
      && forall i :: 0 <= i < |s| && i !in order ==> t[i] == s[i]
  {
    hide LinkedAt, Chained, Dropped;
    Neighbours(s, head, tail, order, p);
    UnlinkedLists(s, head, tail, order, p);
    HashedFrame(s, heads, chains, hash, Unlinked(s, order[p]));
  }

  lemma UnlinkedIs<K, V>(s: Slots<K, V>, t: Slots<K, V>, slot: nat)
    requires slot < |s| == |t| < INVALID
    requires (s[slot].prev < |s| || s[slot].prev == INVALID) && (s[slot].next < |s| || s[slot].next == INVALID)
    requires s[slot].prev != slot && s[slot].next != slot && (s[slot].prev != INVALID ==> s[slot].prev != s[slot].next)
    requires t[slot] == s[slot].(prev := INVALID, next := INVALID)
    requires s[slot].prev != INVALID ==> t[s[slot].prev] == s[s[slot].prev].(next := s[slot].next)
    requires s[slot].next != INVALID ==> t[s[slot].next] == s[s[slot].next].(prev := s[slot].prev)
    requires forall i :: 0 <= i < |s| && i != slot && i != s[slot].prev && i != s[slot].next ==> t[i] == s[i]
    ensures t == Unlinked(s, slot)
  {
  }

  /** The slots with `slot` linked in front of the list. */
  function LinkedFront<K, V>(s: Slots<K, V>, slot: nat, head: nat): (t: Slots<K, V>)
    requires slot < |s| && (head < |s| || head == INVALID)
    ensures |t| == |s|
  {
    var a := s[slot := s[slot].(prev := INVALID, next := head)];
    if head != INVALID then a[head := a[head].(prev := slot)] else a
  }

  lemma LinkedFrontLists<K, V>(s: Slots<K, V>, head: nat, tail: nat, order: seq<nat>, slot: nat)
    requires Listed(s, head, tail, order) && slot < |s| && slot !in order
    ensures head < |s| || head == INVALID
    ensures Listed(LinkedFront(s, slot, head), slot, if tail == INVALID then slot else tail, [slot] + order)
  {
    var t := LinkedFront(s, slot, head);
    var o := [slot] + order;
    forall i | 0 <= i < |o|
      ensures LinkedAt(t, o, i)
    {
      if i > 0 {
        assert o[i] == order[i - 1] && LinkedAt(s, order, i - 1);
        Once(order, 0, i - 1);
      }
    }
  }

  /** At most `prev` and `next` differ. */
  ghost predicate SameButOrder<K, V>(s: Slots<K, V>, t: Slots<K, V>) {
    && |s| == |t|
    && forall i :: 0 <= i < |s| ==> t[i] == s[i].(prev := t[i].prev, next := t[i].next)
  }

  // ---------------------------------------------------------------- the hash chains

  /** Every bucket heads the chain of slots whose keys fall into it. */
  ghost predicate Hashed<K, V>(s: Slots<K, V>, heads: seq<nat>, chains: seq<seq<nat>>, hash: K -> nat) {
    && 0 < |heads| == |chains|
    && (forall b :: 0 <= b < |chains| ==> Chained(s, heads[b], chains[b]))
    && forall b, i :: 0 <= b < |chains| && 0 <= i < |chains[b]| ==> hash(s[chains[b][i]].item.key) % |heads| == b
  }

  /** At most `hashNext` differs. */
  ghost predicate SameButChains<K, V>(s: Slots<K, V>, t: Slots<K, V>) {
    && |s| == |t|
    && forall i :: 0 <= i < |s| ==> t[i] == s[i].(hashNext := t[i].hashNext)
  }

  lemma ChainUnlinked<K, V>(s: Slots<K, V>, head: nat, chain: seq<nat>, p: nat, t: Slots<K, V>)
    requires Chained(s, head, chain) && p < |chain| && SameButChains(s, t)
    requires forall i :: 0 <= i < |s| && i != chain[p] && !(p > 0 && i == chain[p - 1]) ==>
               t[i].hashNext == s[i].hashNext
    requires p > 0 ==> t[chain[p - 1]].hashNext == s[chain[p]].hashNext
    ensures Chained(t, if p == 0 then s[chain[p]].hashNext else head, Dropped<nat>(chain, p))
  {
    var d := Dropped<nat>(chain, p);
    DropDistinct(chain, p);
    forall i | 0 <= i < |d|
      ensures d[i] < |s| && ChainedAt(t, d, i)
    {
      var q := if i < p then i else i + 1;
      DropAt(chain, p, i);
      DropAt(chain, p, i + 1);
      Once(chain, p, q);
      if p > 0 {
        Once(chain, p - 1, q);
      }
      assert ChainedAt(s, chain, q) && ChainedAt(s, chain, p);
    }
    DropAt(chain, p, 0);
    assert ChainedAt(s, chain, p);
  }

  /** A slot is in the chain of its own bucket only. */
  lemma OwnChain<K, V>(s: Slots<K, V>, heads: seq<nat>, chains: seq<seq<nat>>, hash: K -> nat, b: nat, c: nat,
                       i: nat, j: nat)
    requires Hashed(s, heads, chains, hash) && b < |chains| && c < |chains| && i < |chains[b]| && j < |chains[c]|
    ensures chains[b][i] == chains[c][j] ==> b == c
  {
  }

  lemma ChainFrame<K, V>(s: Slots<K, V>, head: nat, chain: seq<nat>, t: Slots<K, V>)
    requires Chained(s, head, chain) && |t| == |s|
    requires forall i :: 0 <= i < |chain| ==> t[chain[i]].hashNext == s[chain[i]].hashNext
    ensures Chained(t, head, chain)
  {
    forall i | 0 <= i < |chain|
      ensures ChainedAt(t, chain, i)
    {
      assert ChainedAt(s, chain, i);
    }
  }

  /** Taking position `p` out of one chain leaves the others alone. */
  lemma HashedUnlinked<K, V>(s: Slots<K, V>, heads: seq<nat>, chains: seq<seq<nat>>, hash: K -> nat, b: nat, p: nat,
                             t: Slots<K, V>)
    requires Hashed(s, heads, chains, hash) && b < |chains| && p < |chains[b]| && SameButChains(s, t)
    requires var chain := chains[b];
      && (forall i :: 0 <= i < |s| && i != chain[p] && !(p > 0 && i == chain[p - 1]) ==> t[i].hashNext == s[i].hashNext)
      && (p > 0 ==> t[chain[p - 1]].hashNext == s[chain[p]].hashNext)
    ensures Hashed(t, if p == 0 then heads[b := s[chains[b][p]].hashNext] else heads,
                   chains[b := Dropped<nat>(chains[b], p)], hash)
  {
    hide Dropped, Chained;
    var chain := chains[b];
    ChainInRange(s, heads[b], chain);
    ChainUnlinked(s, heads[b], chain, p, t);
    DropDistinctOf(s, heads[b], chain, p);
    var d := Dropped<nat>(chain, p);
    forall i | 0 <= i < |d|
      ensures d[i] < |s| && hash(t[d[i]].item.key) % |heads| == b
    {
      assert d[i] in d;
      var j :| 0 <= j < |chain| && chain[j] == d[i];
      assert hash(s[chains[b][j]].item.key) % |heads| == b;
    }
    forall c | 0 <= c < |chains| && c != b
      ensures Chained(t, heads[c], chains[c])
      ensures forall i :: 0 <= i < |chains[c]| ==>
                chains[c][i] < |t| && t[chains[c][i]].item.key == s[chains[c][i]].item.key
    {
      ChainInRange(s, heads[c], chains[c]);
      forall i | 0 <= i < |chains[c]|
        ensures t[chains[c][i]].hashNext == s[chains[c][i]].hashNext
      {
        OwnChain(s, heads, chains, hash, b, c, p, i);
        if p > 0 {
          OwnChain(s, heads, chains, hash, b, c, p - 1, i);
        }
      }
      ChainFrame(s, heads[c], chains[c], t);
    }
  }

  lemma ChainInRange<K, V>(s: Slots<K, V>, head: nat, chain: seq<nat>)
    requires Chained(s, head, chain)
    ensures InRange(chain, |s|)
  {
  }

  lemma DropDistinctOf<K, V>(s: Slots<K, V>, head: nat, chain: seq<nat>, p: nat)
    requires Chained(s, head, chain) && p < |chain|
    ensures forall x :: x in Dropped<nat>(chain, p) ==> x in chain
  {
  }

  /** A slot in no chain becomes the head of its key's chain. */
  lemma HashedFront<K, V>(s: Slots<K, V>, heads: seq<nat>, chains: seq<seq<nat>>, hash: K -> nat, slot: nat)
    requires Hashed(s, heads, chains, hash) && slot < |s|
    requires forall b :: 0 <= b < |chains| ==> slot !in chains[b]
    ensures var b := hash(s[slot].item.key) % |heads|;
      Hashed(s[slot := s[slot].(hashNext := heads[b])], heads[b := slot], chains[b := [slot] + chains[b]], hash)
  {
    hide Chained;
    var b := hash(s[slot].item.key) % |heads|;
    var t := s[slot := s[slot].(hashNext := heads[b])];
    ChainFront(s, heads[b], chains[b], slot);
    ChainInRange(s, heads[b], chains[b]);
    var longer := chains[b := [slot] + chains[b]];
    forall c | 0 <= c < |longer|
      ensures Chained(t, heads[b := slot][c], longer[c])
      ensures forall i :: 0 <= i < |longer[c]| ==>
                longer[c][i] < |t| && t[longer[c][i]].item.key == s[longer[c][i]].item.key
    {
      ChainInRange(s, heads[c], chains[c]);
      if c != b {
        assert forall i :: 0 <= i < |chains[c]| ==> chains[c][i] in chains[c];
        ChainFrame(s, heads[c], chains[c], t);
      }
    }
    forall c, i | 0 <= c < |longer| && 0 <= i < |longer[c]|
      ensures hash(t[longer[c][i]].item.key) % |heads| == c
    {
      if c != b {
        assert longer[c] == chains[c];
        assert hash(s[chains[c][i]].item.key) % |heads| == c;
      } else if i > 0 {
        assert longer[c][i] == chains[b][i - 1];
      }
    }
  }

  lemma ChainFront<K, V>(s: Slots<K, V>, head: nat, chain: seq<nat>, slot: nat)
    requires Chained(s, head, chain) && slot < |s| && slot !in chain
    ensures Chained(s[slot := s[slot].(hashNext := head)], slot, [slot] + chain)
  {
    var t, o := s[slot := s[slot].(hashNext := head)], [slot] + chain;
    forall i | 0 <= i < |o|
      ensures ChainedAt(t, o, i)
    {
      if i > 0 {
        assert o[i] == chain[i - 1] && ChainedAt(s, chain, i - 1);
      }
    }
  }

  lemma HashedFrame<K, V>(s: Slots<K, V>, heads: seq<nat>, chains: seq<seq<nat>>, hash: K -> nat, t: Slots<K, V>)
    requires Hashed(s, heads, chains, hash) && |t| == |s|
    requires forall b, i :: 0 <= b < |chains| && 0 <= i < |chains[b]| && chains[b][i] < |s| ==>
               t[chains[b][i]].hashNext == s[chains[b][i]].hashNext
                 && t[chains[b][i]].item.key == s[chains[b][i]].item.key
    ensures Hashed(t, heads, chains, hash)
  {
    forall b | 0 <= b < |chains|
      ensures Chained(t, heads[b], chains[b])
    {
      assert Chained(s, heads[b], chains[b]);
      ChainFrame(s, heads[b], chains[b], t);
    }
  }

  // ---------------------------------------------------------------- slots and what they hold

  function Blank<K, V>(blank: Item<K, V>): Slot<K, V> {
    Slot(blank, false, INVALID, INVALID, INVALID)
  }

  /** Exactly the valid slots are listed, and each is in the chain of its key's bucket; free slots are fully reset. */
  ghost predicate Filed<K, V>(s: Slots<K, V>, order: seq<nat>, chains: seq<seq<nat>>, hash: K -> nat,
                              blank: Item<K, V>) {
    && 0 < |chains|
    && (forall i :: 0 <= i < |s| ==> (s[i].valid <==> i in order))
    && (forall i :: 0 <= i < |s| && s[i].valid ==> i in chains[hash(s[i].item.key) % |chains|])
    && (forall b, x {:trigger x in chains[b]} :: 0 <= b < |chains| && x in chains[b] ==> x < |s| && s[x].valid)
    && (forall i :: 0 <= i < |s| && !s[i].valid ==> s[i] == Blank(blank))
  }

  /** The items in recency order. */
  ghost function Items<K, V>(s: Slots<K, V>, order: seq<nat>): (items: seq<Item<K, V>>)
    requires InRange(order, |s|)
    ensures |items| == |order|
    ensures forall i :: 0 <= i < |order| ==> items[i] == s[order[i]].item
  {
    seq(|order|, i requires 0 <= i < |order| => s[order[i]].item)
  }

  lemma ItemPosition<K, V>(s: Slots<K, V>, order: seq<nat>, slot: nat) returns (p: nat)
    requires InRange(order, |s|) && slot in order && DistinctKeys(Items(s, order))
    ensures p < |order| && order[p] == slot && slot < |s|
    ensures Position(Items(s, order), s[slot].item.key) == p
              && Cached(Items(s, order), s[slot].item.key) == Some(s[slot].item)
  {
    p :| 0 <= p < |order| && order[p] == slot;
    CachedIs(Items(s, order), p);
  }

  lemma ItemsDrop<K, V>(s: Slots<K, V>, order: seq<nat>, p: nat)
    requires InRange(order, |s|) && p < |order|
    ensures InRange(Dropped<nat>(order, p), |s|)
    ensures Items(s, Dropped<nat>(order, p)) == Dropped(Items(s, order), p)
  {
  }

  lemma ItemsFront<K, V>(s: Slots<K, V>, t: Slots<K, V>, order: seq<nat>, slot: nat)
    requires InRange(order, |s|) && |t| == |s| && slot < |s|
    requires forall i :: 0 <= i < |s| && i != slot ==> t[i].item == s[i].item
    requires slot !in order
    ensures InRange([slot] + order, |t|)
    ensures Items(t, [slot] + order) == [t[slot].item] + Items(s, order)
  {
  }

  lemma ItemsFrame<K, V>(s: Slots<K, V>, t: Slots<K, V>, order: seq<nat>)
    requires InRange(order, |s|) && |t| == |s|
    requires forall i :: 0 <= i < |s| && i in order ==> t[i].item == s[i].item
    ensures Items(t, order) == Items(s, order)
  {
  }

  lemma ItemsUpdate<K, V>(s: Slots<K, V>, order: seq<nat>, p: nat, it: Item<K, V>)
    requires InRange(order, |s|) && Distinct(order) && p < |order|
    ensures var t := s[order[p] := s[order[p]].(item := it)];
      Items(t, order) == Items(s, order)[p := it]
  {
  }

  lemma ListedFrame<K, V>(s: Slots<K, V>, head: nat, tail: nat, order: seq<nat>, t: Slots<K, V>)
    requires Listed(s, head, tail, order) && |t| == |s|
    requires forall i :: 0 <= i < |s| && i in order ==> t[i].prev == s[i].prev && t[i].next == s[i].next
    ensures Listed(t, head, tail, order)
  {
    forall i | 0 <= i < |order|
      ensures LinkedAt(t, order, i)
    {
      assert LinkedAt(s, order, i) && order[i] in order;
    }
  }

  /** A slot with a new item for the same key keeps its places. */
  lemma ItemReplaced<K, V>(s: Slots<K, V>, head: nat, tail: nat, order: seq<nat>, heads: seq<nat>,
                           chains: seq<seq<nat>>, hash: K -> nat, blank: Item<K, V>, slot: nat, it: Item<K, V>)
    requires Listed(s, head, tail, order) && Hashed(s, heads, chains, hash) && Filed(s, order, chains, hash, blank)
    requires slot < |s| && s[slot].valid && it.key == s[slot].item.key
    ensures var t := s[slot := s[slot].(item := it)];
      Listed(t, head, tail, order) && Hashed(t, heads, chains, hash) && Filed(t, order, chains, hash, blank)
  {
    hide Chained, LinkedAt;
    var t := s[slot := s[slot].(item := it)];
    ListedFrame(s, head, tail, order, t);
    HashedFrame(s, heads, chains, hash, t);
  }

  /** With every slot listed there is none free. */
  lemma AllSlots<K, V>(s: Slots<K, V>, order: seq<nat>)
    requires Distinct(order) && InRange(order, |s|)
    requires forall i :: 0 <= i < |s| ==> i in order
    ensures |order| == |s|
  {
    hide Elements, Below, Distinct;
    assert Elements(order) == Below(|s|);
  }

  lemma OneSlotFree<K, V>(s: Slots<K, V>, order: seq<nat>, i: nat)
    requires Distinct(order) && InRange(order, |s|) && i < |s| && i !in order
    ensures |order| < |s|
  {
    hide Elements, Below, Distinct;
    assert Elements(order) <= Below(|s|) - {i};
    SubsetSize(Elements(order), Below(|s|) - {i});
  }

  /** There is a free slot exactly when fewer slots are listed than there are. */
  lemma FreeSlots<K, V>(s: Slots<K, V>, order: seq<nat>)
    requires Distinct(order) && InRange(order, |s|)
    requires forall i :: 0 <= i < |s| ==> (s[i].valid <==> i in order)
    ensures |order| <= |s| && (|order| < |s| <==> exists i :: 0 <= i < |s| && !s[i].valid)
  {
    hide Distinct, InRange;
    if i :| 0 <= i < |s| && !s[i].valid {
      OneSlotFree(s, order, i);
    } else {
      AllSlots(s, order);
    }
  }

  ghost function Below(n: nat): (r: set<nat>)
    ensures |r| == n && forall i :: i in r <==> 0 <= i < n
  {
    if n == 0 then {} else Below(n - 1) + {n - 1}
  }

  ghost function Elements(s: seq<nat>): (r: set<nat>)
    ensures forall x :: x in r <==> x in s
    ensures Distinct(s) ==> |r| == |s|
  {
    if s == [] then {}
    else
      var n := |s| - 1;
      assert s == s[..n] + [s[n]];
      assert Distinct(s) ==> s[n] !in s[..n];
      Elements(s[..n]) + {s[n]}
  }
}
