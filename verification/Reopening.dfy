/** What opening a store again shows, compared with what was visible when it was closed. */
module Reopening {
  import opened Records
  import opened Logs
  import opened Disks
  import opened IndexLog
  import opened Checksum
  import opened Recovery
  import opened StoreSpec
  import opened Survival
  import opened Eviction
  import opened Boot
  import opened FileStores

  /** Closes a store and opens its disk again with the same limits.  All that was visible is back, unless the record
      limit evicts it, and nothing else is exactly when the index had all that the index file says. */
  method Reopen(store: FileStore) returns (again: FileStore)
    requires store.Valid()
    modifies store
    ensures fresh(again) && fresh(again.writeBuf) && again.Valid()
    ensures again.maxRecs == store.maxRecs == old(store.maxRecs)
              && again.policyTtl == store.policyTtl == old(store.policyTtl) && again.reliable == store.reliable
    ensures again.segmentSize == store.segmentSize && again.segmentCount == store.segmentCount
    ensures store.disk == old(store.disk) && store.Holding() == old(store.Holding()) && again.segs == old(store.segs)
    ensures var all := ViewOf(Replay(old(store.mutations)), LogOf(again.segs));
      && Trimmed(all, again.View(), again.maxRecs, again.policyTtl) && Submap(old(store.View()), all)
      && again.index == Replay(again.mutations)
      && (Excess(|all|, again.maxRecs) == 0 ==>
            && again.index == Replay(old(store.mutations))
            && (again.View() == old(store.View()) <==> old(store.index) == Replay(old(store.mutations))))
  {
    hide FileStore.Consistent, FileStore.Ready, Bootable, Loaded, RecoverFiles, SegsOf, ViewOf, LogOf, Replay,
         Trimmed, CopiesPuts, FileStore.Opened, Submap, FileStore.View, IndexOf;
    store.DiskShows();
    store.Close();
    again := new FileStore(store.segmentSize, store.segmentCount, store.reliable, store.disk);
    again.policyTtl, again.maxRecs := store.policyTtl, store.maxRecs;
    again.Init();
    if Excess(|ViewOf(Replay(store.mutations), LogOf(store.segs))|, store.maxRecs) == 0 {
      TrimmedSame(ViewOf(Replay(store.mutations), LogOf(store.segs)), again.View(), store.maxRecs, store.policyTtl);
    }
  }

  // ---------------------------------------------------------------- an evicted record comes back

  /** The record of key `[i]`, stored at time `i`. */
  function Nth(i: nat): Record
    requires i < 0x100
  {
    PutRecord([i], [], 0, i, 0)
  }

  /** The first `n` of them. */
  function FirstRecords(n: nat): map<Key, Record>
    requires n <= 0x100
  {
    if n == 0 then map[] else FirstRecords(n - 1)[[n - 1] := Nth(n - 1)]
  }

  lemma NthRecord(i: nat)
    requires i < 0x100
    ensures Nth(i).key == [i] && Nth(i).ts == i && Nth(i).ttl == 0 && Nth(i).priority == 0
    ensures Storable(Nth(i)) && !Nth(i).IsDelete() && Nth(i).Size() == HEADER_SIZE + 1 + COMMIT_SIZE
  {
    WrittenRecords([i], [], 0, i, 0);
  }

  lemma OneRecordMore(n: nat)
    requires n < 0x100
    ensures FirstRecords(n + 1) == FirstRecords(n)[[n] := Nth(n)]
  {
  }

  lemma {:induction false} FirstKeys(n: nat)
    requires n <= 0x100
    ensures |FirstRecords(n)| == n
    ensures forall i :: 0 <= i < n ==> [i] in FirstRecords(n) && FirstRecords(n)[[i]] == Nth(i)
    ensures forall k :: k in FirstRecords(n) ==> |k| == 1 && k[0] < n
  {
    hide PutRecord;
    if n > 0 {
      FirstKeys(n - 1);
    }
  }

  /** Of records alike but for their times the limit evicts the oldest. */
  lemma OldestGoes(v: map<Key, Record>, n: nat)
    requires 0 < n < 0x100 && Trimmed(FirstRecords(n + 1), v, n, 0)
    ensures v == Without(FirstRecords(n + 1), [0])
  {
    hide FirstRecords, Nth, RanksBefore;
    var u := FirstRecords(n + 1);
    FirstKeys(n + 1);
    if [0] in v {
      SubmapKeys(v, u);
      if forall e :: e in u ==> e in v {
        AllThere(u, v);
      }
      var e: Key :| e in u && e !in v;
      var j: nat := e[0];
      assert e == [j] && u[e] == Nth(j);
      Older(0, j);
    }
    forall k | k in u && k != [0]
      ensures k in v
    {
      if k !in v {
        SubmapRest(u, v, {k, [0]});
      }
    }
  }

  lemma AllThere(u: map<Key, Record>, v: map<Key, Record>)
    requires Submap(v, u) && forall e :: e in u ==> e in v
    ensures u == v
  {
  }

  lemma Older(i: nat, j: nat)
    requires i < j < 0x100
    ensures RanksBefore(Nth(i), Nth(j), 0)
  {
    hide PutRecord;
    NthRecord(i);
    NthRecord(j);
  }

  /** One put more than the limit. */
  method PutOneMore(n: nat, now: nat) returns (store: FileStore)
    requires 8 <= n < 0x100
    ensures fresh(store) && fresh(store.writeBuf) && store.Valid() && store.Entire()
    ensures store.maxRecs == n && store.policyTtl == 0 && store.reliable && store.segmentCount == 2
    ensures Total(store.segs) == 26 * (n + 1) && Stage(store.Holding(), store.deadSinceCompact, n, n + 1)
  {
    hide FileStore.Consistent, FileStore.Ready, FileStore.View, LogOf, Total, IndexOf, PutRecord, Guarded, ClaimBefore,
         ClaimAfter, Complete, Logged, PutInto, Updated, Repacked, FirstRecords, Trimmed, Compacted, SizeOf, Stage, Due,
         LiveAfter, DeadAfter, RecordCrc, Held.Sound, Contents, ViewOf;
    store := OpenOnEmptyDisk(0x1_0000, 2, true);
    store.maxRecs := n;
    StageStarts(store.Holding(), n);
    for i := 0 to n + 1
      invariant fresh(store) && fresh(store.writeBuf) && store.Valid() && store.Entire()
      invariant store.maxRecs == n && store.policyTtl == 0 && store.reliable
      invariant store.segmentSize == 0x1_0000 && store.segmentCount == 2
      invariant store.currentSegment == 0 && Total(store.segs) == 26 * i
      invariant Stage(store.Holding(), store.deadSinceCompact, n, i)
    {
      ghost var a, dead := store.Holding(), store.deadSinceCompact;
      StageFacts(a, dead, n, i);
      NthRecord(i);
      store.ReadyFacts();
      assert store.Spares([i], 0);
      var _ := store.Put([i], [], 0, i, 0, now, false);
      StageStep(a, store.Holding(), dead, store.deadSinceCompact, n, i);
    }
  }

  /** They evict the first record; then the last one is removed. */
  method EvictFirstRecord(n: nat, now: nat) returns (store: FileStore)
    requires 8 <= n < 0x100
    ensures fresh(store) && fresh(store.writeBuf) && store.Valid() && store.Entire() && store.maxRecs == n
    ensures store.View() == Without(FirstRecords(n), [0]) && Contents(LogOf(store.segs)) == FirstRecords(n)
  {
    hide FileStore.Consistent, FileStore.Ready, LogOf, Total, IndexOf, Tombstone, Guarded, ClaimBefore, ClaimAfter,
         Complete, Logged, Updated, Repacked, FirstRecords, Stage, Due, RecordCrc, Held.Sound, Contents, ViewOf,
         AllCheckOut, InTime, ChecksOut;
    store := PutOneMore(n, now);
    ghost var a := store.Holding();
    LastIsLive(a, store.deadSinceCompact, n);
    WrittenRecords([n], [], 0, 0, 0);
    var _ := store.Remove([n], 0, 0, now);
    LastGoes(a, store.Holding(), n, Tombstone([n], 0, 0));
  }

  /** Closed and opened again with the same limit, the store shows the evicted record again. */
  method EvictedComesBack(n: nat, now: nat) returns (store: FileStore, again: FileStore)
    requires 8 <= n < 0x100
    ensures store.View() == Without(FirstRecords(n), [0])
    ensures again.Valid() && again.segs == store.segs && again.maxRecs == store.maxRecs
              && again.View() == FirstRecords(n)
  {
    hide FileStore.Consistent, FileStore.Ready, LogOf, IndexOf, FirstRecords, Contents, ViewOf, Replay, Trimmed;
    store := EvictFirstRecord(n, now);
    FirstKeys(n);
    ContentsAreView(IndexOf(LogOf(store.segs)), LogOf(store.segs));
    again := Reopen(store);
  }

  /** After `i` puts. */
  ghost predicate Stage(a: Held, dead: nat, n: nat, i: nat)
    requires i <= n + 1 <= 0x100
  {
    && a.Sound() && Contents(a.Log()) == FirstRecords(i)
    && |a.index| + dead == i && dead == Excess(i, n)
    && a.View() == if i <= n then FirstRecords(i) else Without(FirstRecords(n + 1), [0])
  }

  lemma StageStarts(a: Held, n: nat)
    requires n < 0x100 && a.index == map[] && a.Log() == []
    ensures Stage(a, 0, n, 0)
  {
  }

  lemma StageFacts(a: Held, dead: nat, n: nat, i: nat)
    requires 8 <= n < 0x100 && i <= n && Stage(a, dead, n, i)
    ensures [i] !in a.index && !Due(LiveAfter(a.index, [i], n), DeadAfter(a.index, [i], n, dead))
  {
    hide LogOf, IndexOf, FirstRecords, ViewOf, Nth, Contents;
    FirstKeys(i);
    ViewSize(a.index, a.Log());
  }

  lemma StageStep(a: Held, b: Held, dead: nat, dead1: nat, n: nat, i: nat)
    requires 8 <= n < 0x100 && i <= n && Stage(a, dead, n, i)
    requires PutInto(a, b, 0, Nth(i), n, 0) && Logged(a, b, Nth(i), n, 0)
    requires |b.index| + dead1 == |a.index| + dead + 1
    ensures Stage(b, dead1, n, i + 1) && Total(b.segs) == Total(a.segs) + 26
  {
    hide LogOf, IndexOf, ViewOf, Contents, Trimmed, Total, PrunedTo, Appended, Nth, FirstRecords, DeadAfter,
         Record.IsDelete, Due;
    StageFacts(a, dead, n, i);
    OneRecordMore(i);
    NthRecord(i);
    FirstKeys(i + 1);
    PutSize(a, b, 0, Nth(i), n, 0);
    if i < n {
      TrimmedSame(FirstRecords(i + 1), b.View(), n, 0);
    } else {
      OldestGoes(b.View(), n);
    }
  }

  /** The key removed is there, and removing it leaves too few dead records for a compaction. */
  lemma LastIsLive(a: Held, dead: nat, n: nat)
    requires 8 <= n < 0x100 && Stage(a, dead, n, n + 1)
    ensures [n] in a.index && dead == 1 && !Due(|Without(a.index, [n])|, 2)
  {
    hide LogOf, IndexOf, ViewOf, FirstRecords, Contents, Nth;
    FirstKeys(n + 1);
    ViewSize(a.index, a.Log());
    RemoveSize(a.index, [n]);
  }

  lemma WithoutLast(n: nat)
    requires 0 < n < 0x100
    ensures var u := FirstRecords(n + 1);
      Without(u, [n]) == FirstRecords(n) && Without(Without(u, [0]), [n]) == Without(FirstRecords(n), [0])
  {
    hide Nth;
    FirstKeys(n);
    OneRecordMore(n);
  }

  lemma LastGoes(a: Held, b: Held, n: nat, r: Record)
    requires 8 <= n < 0x100 && Stage(a, 1, n, n + 1) && Logged(a, b, r, 0, 0) && r.IsDelete() && r.key == [n]
    ensures b.View() == Without(FirstRecords(n), [0]) && Contents(b.Log()) == FirstRecords(n)
  {
    hide LogOf, IndexOf, ViewOf, Trimmed, Total, FirstRecords, Record.IsDelete, Contents;
    TrimmedSame(Seen(a.View(), r), b.View(), 0, 0);
    WithoutLast(n);
  }
}
