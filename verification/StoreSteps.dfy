/** How single file-system steps of the store move the disk between the shapes recovery knows. */
module StoreSteps {
  import opened Bytes
  import opened Records
  import opened Logs
  import opened Disks
  import opened IndexLog
  import opened Compaction
  import opened CopyOrder
  import opened Recovery
  import opened StoreSpec
  import opened Eviction

  /** `d` differs from `before` only in how far `name` has been extended towards `full`. */
  ghost predicate Extends(before: Disk, d: Disk, name: FileName, full: Bytes) {
    && name in before.files && name in d.files
    && d.files == before.files[name := d.files[name]]
    && before.files[name] <= d.files[name] <= full
    && before.Synced(name) <= d.Synced(name)
    && forall other :: other != name ==> d.Synced(other) == before.Synced(other)
  }

  /** `d` differs from `before` in `name` at most. */
  ghost predicate SameBut(before: Disk, d: Disk, name: FileName) {
    && SameExcept(d.files, before.files, {name})
    && forall other :: other != name ==> d.Synced(other) == before.Synced(other)
  }

  /** The index file holds `ms` and is not flushed; nothing else has changed. */
  ghost predicate Writing(before: Disk, d: Disk, ms: seq<Mutation>) {
    d == Disk(before.files[IndexFile := EncodeMutations(ms)], before.synced[IndexFile := 0])
  }

  lemma WritingStarts(before: Disk)
    requires IndexFile !in before.files
    ensures Writing(before, before.Touch(IndexFile), []) && SameBut(before, before.Touch(IndexFile), IndexFile)
  {
  }

  lemma WritingStep(before: Disk, d: Disk, ms: seq<Mutation>, m: Mutation)
    requires Writing(before, d, ms) && EncodeMutations(ms + [m]) == EncodeMutations(ms) + EncodeMutation(m)
    ensures IndexFile in d.files
    ensures Writing(before, d.Append(IndexFile, EncodeMutation(m)), ms + [m])
    ensures SameBut(before, d.Append(IndexFile, EncodeMutation(m)), IndexFile)
  {
  }

  lemma WritingEnds(before: Disk, d: Disk, ms: seq<Mutation>)
    requires Writing(before, d, ms)
    ensures IndexFile in d.files
    ensures var e := d.Flush(IndexFile);
      && e.files == before.files[IndexFile := EncodeMutations(ms)] && e.Durable(IndexFile)
      && e.Synced(IndexFile) == |e.files[IndexFile]| && SameBut(before, e, IndexFile)
  {
  }

  lemma SameSynced(before: Disk, d: Disk)
    requires SameBut(before, d, IndexFile)
    ensures forall other :: other != IndexFile ==> d.Synced(other) == before.Synced(other)
  {
  }

  /** Whatever a power cut leaves of the index file loads as a part of `ix`, and as all of it exactly when the file is
      `full`. */
  ghost predicate Rewriting(d: Disk, ix: Index, full: Bytes) {
    forall image :: CrashImage(d, image) && IndexFile in image ==>
      var loaded := Replay(Mutations(image[IndexFile]));
      Submap(loaded, ix) && (loaded == ix <==> image[IndexFile] == full)
  }

  /** Every state of a bulk rewrite is cut to a part of it. */
  lemma BulkRewrites(d: Disk, ms: seq<Mutation>)
    requires Bulk(ms) && (IndexFile in d.files ==> d.files[IndexFile] <= EncodeMutations(ms))
    ensures Rewriting(d, Replay(ms), EncodeMutations(ms))
  {
    hide EncodeMutations, Mutations, Replay;
    forall image | CrashImage(d, image) && IndexFile in image
      ensures var loaded := Replay(Mutations(image[IndexFile]));
        Submap(loaded, Replay(ms)) && (loaded == Replay(ms) <==> image[IndexFile] == EncodeMutations(ms))
    {
      BulkCut(image[IndexFile], ms);
    }
  }

  lemma RewritingNothing(d: Disk)
    requires IndexFile !in d.files
    ensures forall ix, full :: Rewriting(d, ix, full)
  {
  }

  lemma BulkNothing()
    ensures Bulk([])
  {
  }

  lemma BulkMore(ms: seq<Mutation>, m: Mutation)
    requires Bulk(ms) && m.segment != DELETED && forall i :: 0 <= i < |ms| ==> ms[i].key != m.key
    ensures Bulk(ms + [m])
  {
  }

  lemma AllRewriting(history: seq<Disk>, from: nat, ms: seq<Mutation>)
    requires from <= |history| && Bulk(ms)
    requires forall i :: from <= i < |history| && IndexFile in history[i].files ==>
      history[i].files[IndexFile] <= EncodeMutations(ms)
    ensures forall i :: from <= i < |history| ==> Rewriting(history[i], Replay(ms), EncodeMutations(ms))
  {
    hide Rewriting, Bulk;
    forall i | from <= i < |history|
      ensures Rewriting(history[i], Replay(ms), EncodeMutations(ms))
    {
      BulkRewrites(history[i], ms);
    }
  }

  lemma ReplayNothing()
    ensures Replay([]) == map[]
  {
  }

  lemma AppendChunk(file: Bytes, had: Bytes, data: Bytes, i: nat, n: nat, stream: Bytes, full: Bytes)
    requires i + n <= |data| && file + had == stream + data[..i] && stream + data <= full
    ensures file + (had + data[i..i + n]) == stream + data[..i + n] <= full
  {
    assert file + (had + data[i..i + n]) == (file + had) + data[i..i + n];
    assert data[..i + n] == data[..i] + data[i..i + n];
    assert stream + data[..i + n] == (stream + data)[..|stream| + i + n];
  }

  /** `d` is `before` with some of the segments removed. */
  ghost predicate SegsGone(before: Disk, d: Disk, n: nat) {
    && SameExcept(d.files, before.files, Segments(n))
    && (forall name :: name in d.files ==> name in before.files && d.files[name] == before.files[name])
    && forall name :: name in d.files || name !in Segments(n) ==> d.Synced(name) == before.Synced(name)
  }

  /** What is left is as flushed as it was. */
  lemma GoneSteady(before: Disk, d: Disk, n: nat)
    requires SegsGone(before, d, n) && Steady(before)
    ensures Steady(d)
  {
  }

  /** `before` with its first `k` segments removed. */
  function WithoutFirst(before: Disk, k: nat): Disk {
    Disk(before.files - Segments(k), before.synced - Segments(k))
  }

  lemma FirstGone(before: Disk, k: nat)
    ensures WithoutFirst(before, 0) == before
    ensures WithoutFirst(before, k).Remove(Seg(k)) == WithoutFirst(before, k + 1)
  {
    assert Segments(0) == {};
    assert Segments(k + 1) == Segments(k) + {Seg(k)};
  }

  lemma FirstAreGone(before: Disk, k: nat, n: nat)
    requires k <= n
    ensures SegsGone(before, WithoutFirst(before, k), n)
  {
    assert Segments(k) <= Segments(n);
  }

  lemma AllGone(before: Disk, n: nat)
    ensures SegsGone(before, WithoutFirst(before, n), n)
    ensures forall i :: 0 <= i < n ==> Seg(i) !in WithoutFirst(before, n).files
  {
    FirstAreGone(before, n, n);
    forall i | 0 <= i < n
      ensures Seg(i) in Segments(n)
    {
    }
  }

  /** What clearing leaves of the files `f`: no records, and everything else as it was. */
  ghost predicate Wiped(f: Files, g: Files, n: nat) {
    && SameExcept(g, f, Segments(n) + {IndexFile})
    && (forall i {:trigger Seg(i)} :: 0 <= i < n && Seg(i) in g ==> i == 0 && g[Seg(i)] == [])
    && (IndexFile in g ==> g[IndexFile] == [])
  }

  /** `d` is `before` with compact.tmp in the place of all segments, the index file aside. */
  ghost predicate Swapped(before: Disk, d: Disk, n: nat) {
    && CompactTmp in before.files && CompactTmp !in d.files
    && Seg(0) in d.files && d.files[Seg(0)] == before.files[CompactTmp]
    && (before.Durable(CompactTmp) ==> d.Durable(Seg(0)))
    && (forall i :: 1 <= i < n ==> Seg(i) !in d.files)
    && SameExcept(d.files, before.files, Segments(n) + {CompactTmp, IndexFile})
    && forall name :: name !in Segments(n) + {CompactTmp, IndexFile} ==> d.Synced(name) == before.Synced(name)
  }

  /** Clean, flushed segments are intact for a sweep over their records. */
  lemma CleanIsIntact(sw: Sweep, d: Disk)
    requires Clean(d.files, sw.segs) && Settled(d)
    ensures forall i :: 0 <= i < |sw.segs| ==> Intact(sw, d, i)
  {
    forall i | 0 <= i < |sw.segs|
      ensures Intact(sw, d, i)
    {
      assert SegmentIs(d.files, i, sw.segs[i]);
      SegmentScans(d.files, i, sw.segs[i]);
    }
  }

  lemma CleanSame(f: Files, g: Files, segs: Segs)
    requires Clean(f, segs) && SameExcept(g, f, {CompactTmp, Journal, IndexFile})
    ensures Clean(g, segs)
  {
  }

  /** The segments are whole and flushed. */
  ghost predicate Whole(n: nat, d: Disk, segs: Segs) {
    && 2 <= n <= MAX_SEGMENTS && |segs| == n
    && Clean(d.files, segs) && Total(segs) <= MAX_OFFSET && Settled(d)
  }

  /** The entries that name the final record of their key. */
  function Found(ix: Index, segs: Segs): Index {
    map k | k in ix && k in IndexOf(LogOf(segs)) && ix[k] == IndexOf(LogOf(segs))[k] :: ix[k]
  }

  /** Every entry is found, or names a segment that is gone, and no two entries name the same place. */
  ghost predicate Findable(ix: Index, segs: Segs, files: Files) {
    && PlacesDiffer(ix)
    && forall k :: k in ix ==> k in Found(ix, segs) || Seg(ix[k].segment) !in files
  }

  /** Of the unexpired entries `kept` the sweep keeps all but those of segments that are gone. */
  ghost predicate Selects(kept: Index, sw: Sweep, files: Files) {
    && PlacesDiffer(kept) && Submap(sw.keep, kept)
    && forall k :: k in kept && k !in sw.keep ==> Seg(kept[k].segment) !in files
  }

  lemma SoundIsFindable(ix: Index, segs: Segs, files: Files)
    requires 0 < |segs| <= MAX_SEGMENTS && Clean(files, segs) && Total(segs) <= MAX_OFFSET
    requires Submap(ix, IndexOf(LogOf(segs)))
    ensures Findable(ix, segs, files)
  {
    hide Total, LogOf, IndexOf, Clean, PlacesDiffer;
    CleanStorable(files, segs);
    SoundSweep(segs, ix, ix);
    KeptPlacesDiffer(Sweep(segs, ix));
  }

  /** When the whole index is found, a compaction keeps every unexpired entry. */
  lemma AllFound(ix: Index, pruned: Index, segs: Segs, policyTtl: Uint32, now: nat, maxRecs: nat)
    requires Submap(ix, IndexOf(LogOf(segs))) && PrunedTo(ix, pruned, maxRecs, policyTtl)
    ensures Found(Unexpired(pruned, policyTtl, now), segs) == Unexpired(pruned, policyTtl, now)
  {
    hide BottomSet, Expired, LogOf, IndexOf;
  }

  lemma StillScanned(ix: Index, pruned: Index, segs: Segs, policyTtl: Uint32, now: nat, maxRecs: nat)
    requires Submap(ix, IndexOf(LogOf(segs))) && PrunedTo(ix, pruned, maxRecs, policyTtl)
    ensures Submap(Unexpired(pruned, policyTtl, now), IndexOf(LogOf(segs)))
  {
    hide BottomSet, Expired, LogOf, IndexOf;
  }

  lemma FoundSelects(ix: Index, kept: Index, segs: Segs, files: Files)
    requires Findable(ix, segs, files) && Submap(kept, ix)
    ensures Selects(kept, Sweep(segs, Found(kept, segs)), files) && Submap(Found(kept, segs), IndexOf(LogOf(segs)))
  {
    hide LogOf, IndexOf;
  }

  lemma StillSelects(kept: Index, sw: Sweep, f: Files, g: Files)
    requires Selects(kept, sw, f) && SameExcept(g, f, {CompactTmp, Journal})
    ensures Selects(kept, sw, g)
  {
    hide PlacesDiffer;
  }

  lemma FewerSegments(f: Files, g: Files, s: nat, kept: Index, sw: Sweep)
    requires Selects(kept, sw, f) && SameExcept(g, f, {CompactTmp, Journal, Seg(s)}) && Seg(s) !in g
    ensures Selects(kept, sw, g)
  {
    hide PlacesDiffer;
  }

  /** In a segment that is there the unexpired entries are those the sweep keeps. */
  lemma SelectedHere(kept: Index, sw: Sweep, files: Files, s: nat, offsets: seq<nat>)
    requires Selects(kept, sw, files) && Seg(s) in files && Collected(kept, {}, s, offsets)
    ensures forall o :: o in offsets <==> exists k :: k in sw.keep && PointsAt(sw.keep[k], s, o)
  {
    hide PlacesDiffer;
    forall o
      ensures o in offsets <==> exists k :: k in sw.keep && PointsAt(sw.keep[k], s, o)
    {
      if o in offsets {
        var k :| k in kept && PointsAt(kept[k], s, o);
        assert k in sw.keep && PointsAt(sw.keep[k], s, o);
      }
      if k :| k in sw.keep && PointsAt(sw.keep[k], s, o) {
        assert k in kept && PointsAt(kept[k], s, o);
      }
    }
  }

  /** A segment that is gone keeps nothing. */
  lemma NothingLive(sw: Sweep, s: nat)
    requires s < |sw.segs| && sw.segs[s] == []
    ensures LiveIn(sw, s) == [] && sw.Copied(s + 1) == sw.Copied(s)
  {
    PartialEnds(sw, s);
  }

  /** The disk once the first journal is written, and once compact.tmp is open. */
  lemma CompactionStarts(sw: Sweep, d: Disk, journaled: Disk, begun: Disk, n: nat)
    requires Whole(n, d, sw.segs) && Submap(sw.keep, IndexOf(LogOf(sw.segs)))
    requires Journal in journaled.files && journaled == d.Overwrite(Journal, journaled.files[Journal])
    requires JournalSays(journaled.files, JOURNAL_COMPACTING, 0)
    requires begun == journaled.Truncate(CompactTmp)
    ensures sw.Sound() && CrashSafe(sw, journaled) && CrashSafe(sw, begun)
    ensures MidwayShape(sw, begun, 0) && Whole(n, begun, sw.segs)
    ensures SameExcept(begun.files, d.files, {CompactTmp, Journal})
  {
    hide DecodeJournal, Total, LogOf, IndexOf, Submap, CrashSafe, Sweep.Sound, CopyShape, MidwayShape, JournalSays,
         Clean;
    CleanStorable(d.files, sw.segs);
    SubmapSelf(sw.keep);
    SoundSweep(sw.segs, sw.keep, sw.keep);
    StartShapes(sw, d, journaled, begun);
    CleanSame(d.files, begun.files, sw.segs);
    CopyPhaseSafe(sw, journaled, 0);
    CopyPhaseSafe(sw, begun, 0);
  }

  lemma SubmapSelf<K, V>(u: map<K, V>)
    ensures Submap(u, u)
  {
  }

  /** The index file and the segments agree on after steps that leave both alone. */
  lemma AgreeSame(n: nat, before: Disk, d: Disk, segs: Segs, ms: seq<Mutation>)
    requires Agree(n, before, segs, ms) && SameExcept(d.files, before.files, {CompactTmp, Journal})
    requires Journal !in d.files && Steady(d)
    ensures Agree(n, d, segs, ms)
  {
    hide Total, LogOf, IndexOf, Replay, EncodeMutations, Settled;
    CleanSame(before.files, d.files, segs);
  }

  lemma StartShapes(sw: Sweep, d: Disk, journaled: Disk, begun: Disk)
    requires Clean(d.files, sw.segs) && Settled(d)
    requires Journal in journaled.files && journaled == d.Overwrite(Journal, journaled.files[Journal])
    requires JournalSays(journaled.files, JOURNAL_COMPACTING, 0) && begun == journaled.Truncate(CompactTmp)
    ensures CopyShape(sw, journaled, 0) && CopyShape(sw, begun, 0) && MidwayShape(sw, begun, 0)
  {
    hide DecodeJournal, Scan;
    CleanIsIntact(sw, d);
    forall i | 0 <= i < |sw.segs|
      ensures Intact(sw, journaled, i) && Intact(sw, begun, i)
    {
      assert Intact(sw, d, i);
    }
    assert sw.Copied(0) == [] && EncodeAll([]) == [];
  }

  lemma OtherSegments(f: Files, g: Files, s: nat, segs: Segs)
    requires SameExcept(g, f, {CompactTmp, Journal, Seg(s)})
    requires forall i :: s <= i < |segs| ==> SegmentIs(f, i, segs[i])
    ensures forall i :: s + 1 <= i < |segs| ==> SegmentIs(g, i, segs[i])
  {
  }

  /** The rename is done and the commit journal not yet cleared. */
  ghost predicate MidSwap(sw: Sweep, d: Disk) {
    SwappedShape(sw, d) && InSwap(d)
  }

  lemma CommitPhase(sw: Sweep, before: Disk, d: Disk)
    requires sw.Sound() && CommitShape(sw, before) && SegsGone(before, d, |sw.segs|)
    ensures CrashSafe(sw, d)
  {
    CommitPhaseSafe(sw, d);
  }

  lemma SwappedPhase(sw: Sweep, before: Disk, d: Disk)
    requires CommitShape(sw, before) && Swapped(before, d, |sw.segs|)
    ensures MidSwap(sw, d)
  {
  }

  /** The history of the swap, state by state. */
  lemma SwapHistory(sw: Sweep, before: Disk, history: seq<Disk>, from: nat, swap: nat)
    requires sw.Sound() && CommitShape(sw, before)
    requires forall i :: from <= i < |history| ==>
      if i < swap then SegsGone(before, history[i], |sw.segs|) else Swapped(before, history[i], |sw.segs|)
    ensures forall i :: from <= i < swap && i < |history| ==> CrashSafe(sw, history[i])
    ensures forall i :: from <= i < |history| && swap <= i ==> MidSwap(sw, history[i])
  {
    forall i | from <= i < |history|
      ensures if i < swap then CrashSafe(sw, history[i]) else MidSwap(sw, history[i])
    {
      if i < swap {
        CommitPhase(sw, before, history[i]);
      } else {
        SwappedPhase(sw, before, history[i]);
      }
    }
  }

  /** The disk states of a compaction: safe up to the rename and from the clearing of the journal on; in between a
      power cut is survived exactly when there was nothing to keep. */
  ghost predicate CompactionTrace(sw: Sweep, states: seq<Disk>, swap: nat) {
    && (forall i :: 0 <= i < swap && i < |states| ==> CrashSafe(sw, states[i]))
    && (forall i :: swap <= i < |states| - 1 ==> InSwap(states[i]) && (CrashSafe(sw, states[i]) <==> sw.keep == map[]))
    && (|states| > 0 ==> CrashSafe(sw, states[|states| - 1]))
  }

  lemma SwapIsUnsafe(sw: Sweep, states: seq<Disk>, swap: nat)
    requires swap < |states|
    requires forall i :: 0 <= i < swap ==> CrashSafe(sw, states[i])
    requires forall i :: swap <= i < |states| - 1 ==> MidSwap(sw, states[i])
    requires CrashSafe(sw, states[|states| - 1])
    ensures CompactionTrace(sw, states, swap)
  {
    hide CrashSafe;
    forall i | swap <= i < |states| - 1
      ensures InSwap(states[i]) && (CrashSafe(sw, states[i]) <==> sw.keep == map[])
    {
      SwappedSafeIffNothingKept(sw, states[i]);
    }
  }

  /** Taking the files as they are right after the rename, recovery finds nothing. */
  lemma SwapLoses(sw: Sweep, history: seq<Disk>, from: nat, swap: nat, n: nat)
    requires from <= swap < |history| - 1 && CompactionTrace(sw, history[from..], swap - from)
    ensures CrashImage(history[swap], history[swap].files)
    ensures Contents(RecoveredLog(history[swap].files, n)) == map[]
  {
    hide CrashSafe, RecoveredLog;
    assert InSwap(history[from..][swap - from]);
    FilesAreAnImage(history[swap]);
    SwappedIsLost(history[swap], history[swap].files, n);
  }

  ghost predicate AllSafe(sw: Sweep, states: seq<Disk>) {
    forall i :: 0 <= i < |states| ==> CrashSafe(sw, states[i])
  }

  lemma SafeFrom(sw: Sweep, history: seq<Disk>, from: nat)
    requires from <= |history| && forall i :: from <= i < |history| ==> CrashSafe(sw, history[i])
    ensures AllSafe(sw, history[from..])
  {
  }

  lemma TwoSafe(sw: Sweep, history: seq<Disk>, a: Disk, b: Disk)
    requires |history| >= 2 && history[|history| - 2] == a && history[|history| - 1] == b
    requires CrashSafe(sw, a) && CrashSafe(sw, b)
    ensures AllSafe(sw, history[|history| - 2..])
  {
    hide CrashSafe;
  }

  lemma SafeJoin(sw: Sweep, from: nat, middle: seq<Disk>, history: seq<Disk>)
    requires from <= |middle| && middle <= history
    requires AllSafe(sw, middle[from..]) && AllSafe(sw, history[|middle|..])
    ensures AllSafe(sw, history[from..])
  {
    assert history[from..] == middle[from..] + history[|middle|..];
  }

  /** Segment `s` is the first that has not been copied and deleted, and nothing but the segments, the copy and the
      journal differs from `start`. */
  ghost predicate Checkpoint(sw: Sweep, d: Disk, s: nat, start: Files) {
    && MidwayShape(sw, d, s) && Settled(d)
    && SameExcept(d.files, start, Segments(|sw.segs|) + {CompactTmp, Journal})
  }

  ghost predicate Passed(sw: Sweep, states: seq<Disk>, s: nat, start: Files) {
    exists i :: 0 <= i < |states| && Checkpoint(sw, states[i], s, start)
  }

  /** The states pass every checkpoint up to the `upto`th. */
  ghost predicate Checkpoints(sw: Sweep, states: seq<Disk>, upto: nat, start: Files) {
    forall s :: 1 <= s <= upto ==> Passed(sw, states, s, start)
  }

  lemma NoCheckpoints(sw: Sweep, states: seq<Disk>, start: Files)
    ensures Checkpoints(sw, states, 0, start)
  {
  }

  /** Checkpoints passed in the middle of some states, seen from their beginning. */
  lemma LaterPassed(sw: Sweep, from: nat, begun: nat, middle: seq<Disk>, history: seq<Disk>, s: nat, start: Files,
                    first: Files)
    requires from <= begun <= |middle| && middle <= history && Passed(sw, middle[begun..], s, start)
    requires SameExcept(start, first, {CompactTmp, Journal})
    ensures Passed(sw, history[from..], s, first)
  {
    hide MidwayShape;
    var i :| 0 <= i < |middle[begun..]| && Checkpoint(sw, middle[begun..][i], s, start);
    assert history[from..][begun - from + i] == middle[begun..][i];
    assert Checkpoint(sw, middle[begun..][i], s, first);
  }

  lemma LaterCheckpoints(sw: Sweep, from: nat, begun: nat, middle: seq<Disk>, history: seq<Disk>, upto: nat,
                         start: Files, first: Files)
    requires from <= begun <= |middle| && middle <= history && Checkpoints(sw, middle[begun..], upto, start)
    requires SameExcept(start, first, {CompactTmp, Journal})
    ensures Checkpoints(sw, history[from..], upto, first)
  {
    hide Passed;
    forall s | 1 <= s <= upto
      ensures Passed(sw, history[from..], s, first)
    {
      LaterPassed(sw, from, begun, middle, history, s, start, first);
    }
  }

  lemma NextCheckpoint(sw: Sweep, middle: seq<Disk>, history: seq<Disk>, from: nat, upto: nat, start: Files)
    requires from <= |middle| && middle < history && Checkpoints(sw, middle[from..], upto, start)
    requires Checkpoint(sw, history[|history| - 1], upto + 1, start)
    ensures Checkpoints(sw, history[from..], upto + 1, start)
  {
    hide Checkpoint;
    LaterCheckpoints(sw, from, from, middle, history, upto, start, start);
    assert history[from..][|history| - 1 - from] == history[|history| - 1];
  }

  lemma AbortIsSafe(sw: Sweep, states: seq<Disk>)
    requires AllSafe(sw, states)
    ensures CompactionTrace(sw, states, |states|)
  {
  }

  lemma TraceJoin(sw: Sweep, from: nat, middle: seq<Disk>, history: seq<Disk>, swap: nat)
    requires from <= |middle| && middle < history && |middle| <= swap
    requires AllSafe(sw, middle[from..]) && CompactionTrace(sw, history[|middle|..], swap - |middle|)
    ensures CompactionTrace(sw, history[from..], swap - from)
  {
    hide CrashSafe, InSwap;
    var a, b := middle[from..], history[|middle|..];
    assert history[from..] == a + b;
    forall i | 0 <= i < |a + b|
      ensures i < |a| ==> (a + b)[i] == a[i]
      ensures |a| <= i ==> (a + b)[i] == b[i - |a|]
    {
    }
  }

  lemma CommitStarts(sw: Sweep, was: Disk, d: Disk)
    requires sw.Sound() && MidwayShape(sw, was, |sw.segs|) && Settled(was)
    requires Journal in d.files && d == was.Overwrite(Journal, d.files[Journal])
               && JournalSays(d.files, JOURNAL_COMMIT, 0)
    ensures CommitShape(sw, d) && CrashSafe(sw, d) && Settled(d)
    ensures CompactTmp in d.files && d.files[CompactTmp] == EncodeAll(sw.All())
  {
    CommitPhaseSafe(sw, d);
  }

  /** Undoing an attempt that has deleted nothing is safe at each step, and leaves the store as it was. */
  lemma AbortSafe(sw: Sweep, d: Disk, start: Files, n: nat)
    requires sw.Sound() && CopyShape(sw, d, 0) && Settled(d) && 0 < n == |sw.segs|
    requires Clean(start, sw.segs) && SameExcept(d.files, start, {CompactTmp, Journal})
    ensures var a := d.Remove(CompactTmp);
      && CrashSafe(sw, a) && CrashSafe(sw, a.Remove(Journal)) && Steady(a.Remove(Journal))
      && SameExcept(a.Remove(Journal).files, start, {CompactTmp, Journal})
      && CrashSafe(sw, a.Remove(Journal).Touch(Seg(n - 1)))
  {
    hide Clean, DecodeJournal, EncodeAll, Scan, Sweep.Sound, Sweep.Copied, SegmentIs, SizeOf;
    var a := d.Remove(CompactTmp);
    var b := a.Remove(Journal);
    forall i | 0 <= i < |sw.segs|
      ensures Intact(sw, a, i) && Intact(sw, b, i)
    {
      assert Intact(sw, d, i);
    }
    CopyPhaseSafe(sw, a, 0);
    QuietSafe(sw, b);
    CleanSame(start, b.files, sw.segs);
    TouchClean(b, sw.segs, n - 1);
    CleanIsIntact(sw, b.Touch(Seg(n - 1)));
    QuietSafe(sw, b.Touch(Seg(n - 1)));
  }

  /** compact.tmp scans to exactly the copied records, and none is a tombstone. */
  lemma CopyScans(sw: Sweep)
    requires sw.Sound()
    ensures Scan(EncodeAll(sw.All())) == sw.All() && NoTombstones(sw.All())
  {
    CopiedStorable(sw, |sw.segs|);
    ScanRoundTrip(sw.All(), []);
    assert EncodeAll(sw.All()) + [] == EncodeAll(sw.All());
    OneRecordPerKey(sw);
  }

  /** Clearing the journal ends the compaction. */
  lemma Cleared(sw: Sweep, d: Disk)
    requires sw.Sound() && MidSwap(sw, d) && Clean(d.files, Compacted(|sw.segs|, sw.All())) && Settled(d)
    ensures CrashSafe(sw, d.Remove(Journal))
    ensures Clean(d.Remove(Journal).files, Compacted(|sw.segs|, sw.All())) && Steady(d.Remove(Journal))
  {
    var e := d.Remove(Journal);
    ClearedSafe(sw, e);
    forall i | 0 <= i < |sw.segs|
      ensures SegmentIs(e.files, i, Compacted(|sw.segs|, sw.All())[i])
    {
      assert SegmentIs(d.files, i, Compacted(|sw.segs|, sw.All())[i]);
    }
  }

  /** A finished swap is a consistent store again. */
  lemma SwapIsClean(sw: Sweep, before: Disk, d: Disk, n: nat)
    requires sw.Sound() && n == |sw.segs| && CommitShape(sw, before) && Swapped(before, d, n) && Settled(before)
    requires IndexFile in d.files && d.Durable(IndexFile)
    ensures Clean(d.files, Compacted(n, sw.All())) && Settled(d)
  {
    hide EncodeAll, Sweep.Sound, Sweep.Copied, Scan, DecodeJournal;
    CopiedStorable(sw, n);
    forall i | 0 <= i < n
      ensures SegmentIs(d.files, i, Compacted(n, sw.All())[i])
    {
    }
    forall name | name in d.files && name != CompactTmp
      ensures d.Durable(name)
    {
      if name in Segments(n) {
        assert name == Seg(0);
      }
    }
  }

  /** What the segments denote after the swap. */
  lemma SwapContents(sw: Sweep, n: nat)
    requires sw.Sound() && n == |sw.segs|
    ensures var segs := Compacted(n, sw.All());
      && LogOf(segs) == Located(0, sw.All())
      && Contents(LogOf(segs)) == ViewOf(sw.keep, sw.Log())
      && |IndexOf(LogOf(segs))| == Puts(LogOf(segs))
      && Total(segs) <= Total(sw.segs)
  {
    CompactedIsLocated(n, sw.All());
    CompactedExactly(sw);
    LiveFits(sw.Log(), sw.keep);
  }

  /** With the journal cleared everything agrees on the copy, and nothing is dead. */
  lemma SwapDone(sw: Sweep, d: Disk, n: nat, ms: seq<Mutation>, ix: Index)
    requires sw.Sound() && 2 <= n == |sw.segs| <= MAX_SEGMENTS && Total(sw.segs) <= MAX_OFFSET
    requires MidSwap(sw, d) && Clean(d.files, Compacted(n, sw.All())) && Settled(d)
    requires IndexFile in d.files && d.files[IndexFile] == EncodeMutations(ms)
    requires Replay(ms) == ix == IndexOf(Located(0, sw.All()))
    ensures var segs, e := Compacted(n, sw.All()), d.Remove(Journal);
      && CrashSafe(sw, e) && Agree(n, e, segs, ms) && Counted(ix, ms, segs, 0, 0) && Complete(ms, segs)
      && ix == IndexOf(LogOf(segs))
      && Contents(LogOf(segs)) == ViewOf(sw.keep, sw.Log()) && Total(segs) <= Total(sw.segs)
  {
    hide CrashSafe, Clean, Settled, MidSwap, Compacted, Sweep.Sound, Sweep.All, Total, LogOf, IndexOf, Replay,
         EncodeMutations, Contents, ViewOf, Puts, Located;
    SwapContents(sw, n);
    Cleared(sw, d);
  }

  /** The rename, and dropping the old index file. */
  lemma RenameSwaps(before: Disk, gone: Disk, n: nat)
    requires n > 0 && CompactTmp in gone.files && SegsGone(before, gone, n)
    requires forall i :: 0 <= i < n ==> Seg(i) !in gone.files
    ensures var d := gone.Rename(CompactTmp, Seg(0));
      && CompactTmp in before.files && Seg(0) in d.files && d.files[Seg(0)] == before.files[CompactTmp]
      && Swapped(before, d, n) && Swapped(before, d.Remove(IndexFile), n)
  {
    assert Seg(0) in Segments(n) && CompactTmp !in Segments(n);
  }

  /** Rewriting the index file does not touch the swapped segments. */
  lemma SwappedButIndex(before: Disk, d: Disk, history: seq<Disk>, from: nat, n: nat)
    requires Swapped(before, d, n)
    requires forall i :: from <= i < |history| ==> SameBut(d, history[i], IndexFile)
    ensures forall i :: from <= i < |history| ==> Swapped(before, history[i], n)
  {
  }

  ghost predicate NoTombstones(rs: seq<Record>) {
    forall i :: 0 <= i < |rs| ==> !rs[i].IsDelete()
  }

  lemma NoTombstonesStep(rs: seq<Record>, r: Record)
    ensures NoTombstones(rs + [r]) <==> NoTombstones(rs) && !r.IsDelete()
  {
    if NoTombstones(rs + [r]) {
      assert !(rs + [r])[|rs|].IsDelete();
      forall i | 0 <= i < |rs|
        ensures !rs[i].IsDelete()
      {
        assert (rs + [r])[i] == rs[i];
      }
    }
  }

  lemma EmptyLog()
    ensures IndexOf([] + Located(0, [])) == map[]
  {
  }

  lemma TmpPiece(was: Bytes, all: Bytes, done: nat, n: nat, data: Bytes, target: Bytes)
    requires was + all <= target && done + n <= |all| && n <= |data|
    requires n > 0 ==> done + |data| <= |all| && data == all[done..done + |data|]
    ensures was + all[..done] + data[..n] == was + all[..done + n]
    ensures was + all[..done + n] <= target
  {
  }

  /** Segment `s` is being copied to compact.tmp. */
  ghost predicate Copying(sw: Sweep, d: Disk, s: nat) {
    sw.Sound() && s < |sw.segs| && CopyShape(sw, d, s) && CompactTmp in d.files
  }

  /** `done` bytes of `all` have been written to compact.tmp, which held `was` on the disk `base`. */
  ghost predicate TmpHas(base: Disk, d: Disk, was: Bytes, all: Bytes, done: nat)
    requires done <= |all|
  {
    d == Disk(base.files[CompactTmp := was + all[..done]], base.synced)
  }

  lemma TmpStarts(d: Disk, all: Bytes)
    requires CompactTmp in d.files
    ensures TmpHas(d, d, d.files[CompactTmp], all, 0)
  {
    assert d.files[CompactTmp] + all[..0] == d.files[CompactTmp];
  }

  lemma TmpEnds(base: Disk, d: Disk, was: Bytes, all: Bytes, done: nat)
    requires done <= |all| && TmpHas(base, d, was, all, done)
    ensures SameExcept(d.files, base.files, {CompactTmp}) && d.synced == base.synced && CompactTmp in d.files
    ensures done == |all| ==> d.files[CompactTmp] == was + all
  {
  }

  /** The pieces of an encoded record, by position. */
  lemma RecordPieces(r: Record)
    ensures |Encode(r)| == HEADER_SIZE + |r.key| + |r.value| + COMMIT_SIZE && |Header(r)| == HEADER_SIZE
    ensures Encode(r)[0..HEADER_SIZE] == Header(r)
    ensures var k := HEADER_SIZE + |r.key|; var v := k + |r.value|;
      && Encode(r)[HEADER_SIZE..k] == r.key
      && Encode(r)[k..v] == r.value
      && Encode(r)[v..v + COMMIT_SIZE] == Le(MAGIC_COMMIT, 4)
  {
    hide Encode, Header, Le;
    EncodedSize(r);
    HeaderWidths(r);
    EncodedParts(r);
    FourPieces(Header(r), r.key, r.value, Le(MAGIC_COMMIT, 4));
  }

  lemma FourPieces(a: Bytes, b: Bytes, c: Bytes, d: Bytes)
    ensures var whole, k, v := a + b + c + d, |a| + |b|, |a| + |b| + |c|;
      whole[0..|a|] == a && whole[|a|..k] == b && whole[k..v] == c && whole[v..v + |d|] == d
  {
  }

  /** While a record is being appended and flushed piece by piece, a crash loses at most that record. */
  lemma AppendCrash(n: nat, segs: Segs, cur: nat, r: Record, ms: seq<Mutation>, m: Mutation, before: Disk, d: Disk)
    requires Agree(n, before, segs, ms) && cur < n && Storable(r)
    requires Extends(before, d, Seg(cur), EncodeAll(segs[cur] + [r]))
    ensures LogSafe(segs, cur, r, ms, m, d)
  {
    hide Total, Replay, LogOf, IndexOf, EncodeMutations, SizeOf, Record.Size, MutationOf, SegRecs, Header;
    forall image | CrashImage(d, image)
      ensures IndexFile in image && Mutations(image[IndexFile]) == ms
      ensures SegsOf(image, |segs|) == segs || SegsOf(image, |segs|) == Appended(segs, cur, r)
    {
      hide Scan, SegRecs, EncodeAll, Clean, Mutations;
      var rs := ActiveSegment(segs, cur, r, before, d, image);
      forall i | 0 <= i < |segs| && i != cur
        ensures SegRecs(image, i) == segs[i]
      {
        OtherSegment(segs, cur, before, d, image, i, EncodeAll(segs[cur] + [r]));
      }
      SegsFrom(image, segs[cur := rs]);
      assert before.Durable(IndexFile);
      DurableSurvives(d, image, IndexFile);
      IndexFileReads(image[IndexFile], ms);
    }
  }

  /** While the mutation is being written, the record is on disk and a crash loses at most the mutation. */
  lemma PersistCrash(n: nat, segs: Segs, cur: nat, off: nat, r: Record, ms: seq<Mutation>, m: Mutation, before: Disk,
                     d: Disk)
    requires Staged(n, before, segs, cur, off, r, ms)
    requires Extends(before, d, IndexFile, EncodeMutations(ms + [m]))
    ensures LogSafe(segs, cur, r, ms, m, d)
  {
    hide Total, Replay, LogOf, IndexOf, EncodeMutations, SizeOf, Record.Size;
    forall image | CrashImage(d, image)
      ensures IndexFile in image && SegsOf(image, |segs|) == Appended(segs, cur, r)
      ensures Mutations(image[IndexFile]) == ms || Mutations(image[IndexFile]) == ms + [m]
    {
      hide Scan, SegRecs, EncodeMutations, Mutations, Clean;
      var now := Appended(segs, cur, r);
      forall i | 0 <= i < |now|
        ensures SegRecs(image, i) == now[i]
      {
        SegmentUntouched(now, before, d, image, i, EncodeMutations(ms + [m]));
      }
      SegsFrom(image, now);
      assert before.Durable(IndexFile);
      MutationCut(image[IndexFile], ms, m);
    }
  }

  lemma SegmentUntouched(segs: Segs, before: Disk, d: Disk, image: Files, i: nat, full: Bytes)
    requires Clean(before.files, segs) && Settled(before) && i < |segs|
    requires Extends(before, d, IndexFile, full) && CrashImage(d, image)
    ensures SegRecs(image, i) == segs[i]
  {
    assert SegmentIs(before.files, i, segs[i]);
    if Seg(i) in before.files {
      assert before.Durable(Seg(i));
      DurableSurvives(d, image, Seg(i));
      SegmentScans(before.files, i, segs[i]);
    }
  }

  lemma SegsFrom(image: Files, segs: Segs)
    requires forall i :: 0 <= i < |segs| ==> SegRecs(image, i) == segs[i]
    ensures SegsOf(image, |segs|) == segs
  {
  }

  lemma ActiveSegment(segs: Segs, cur: nat, r: Record, before: Disk, d: Disk, image: Files) returns (rs: seq<Record>)
    requires Clean(before.files, segs) && Settled(before) && cur < |segs| && Storable(r)
    requires Extends(before, d, Seg(cur), EncodeAll(segs[cur] + [r])) && CrashImage(d, image)
    ensures SegRecs(image, cur) == rs && (rs == segs[cur] || rs == segs[cur] + [r])
  {
    assert SegmentIs(before.files, cur, segs[cur]);
    assert before.Durable(Seg(cur));
    var j := AppendedScan(segs[cur], r, image[Seg(cur)]);
    rs := Scan(image[Seg(cur)]);
  }

  lemma AppendedScan(rs: seq<Record>, r: Record, p: Bytes) returns (j: nat)
    requires AllStorable(rs) && Storable(r)
    requires p <= EncodeAll(rs + [r]) && |EncodeAll(rs)| <= |p|
    ensures |rs| <= j <= |rs| + 1 && Scan(p) == (rs + [r])[..j]
    ensures j == |rs| ==> Scan(p) == rs
    ensures j == |rs| + 1 ==> Scan(p) == rs + [r]
  {
    assert (rs + [r])[..|rs|] == rs;
    j := ScanOfPrefix(rs + [r], |rs|, p);
  }

  lemma OtherSegment(segs: Segs, cur: nat, before: Disk, d: Disk, image: Files, i: nat, full: Bytes)
    requires Clean(before.files, segs) && Settled(before) && cur < |segs| && i < |segs| && i != cur
    requires Extends(before, d, Seg(cur), full) && CrashImage(d, image)
    ensures SegRecs(image, i) == segs[i]
  {
    assert SegmentIs(before.files, i, segs[i]);
    if Seg(i) in before.files {
      assert before.Durable(Seg(i));
      DurableSurvives(d, image, Seg(i));
      SegmentScans(before.files, i, segs[i]);
    }
  }

  /** Opening a segment leaves the segments clean. */
  lemma TouchClean(d: Disk, segs: Segs, id: nat)
    requires Clean(d.files, segs) && Settled(d) && id < |segs|
    ensures Clean(d.Touch(Seg(id)).files, segs) && Settled(d.Touch(Seg(id)))
    ensures |d.Touch(Seg(id)).files[Seg(id)]| == SizeOf(segs[id])
  {
    var e := d.Touch(Seg(id));
    assert SegmentIs(d.files, id, segs[id]);
    assert EncodeAll([]) == [];
    SizeOfEncoding(segs[id]);
    forall i | 0 <= i < |segs|
      ensures SegmentIs(e.files, i, segs[i])
    {
      assert SegmentIs(d.files, i, segs[i]);
    }
  }

  /** Before the first piece of a record is buffered. */
  lemma AppendStarts(d: Disk, segs: Segs, cur: nat, r: Record)
    requires Clean(d.files, segs) && cur < |segs| && Seg(cur) in d.files && d.Durable(Seg(cur))
    ensures d.files[Seg(cur)] == EncodeAll(segs[cur])
    ensures EncodeAll(segs[cur] + [r]) == EncodeAll(segs[cur]) + Encode(r)
    ensures Encode(r) == Header(r) + r.key + r.value + Le(MAGIC_COMMIT, 4)
    ensures Extends(d, d, Seg(cur), EncodeAll(segs[cur] + [r]))
  {
    assert SegmentIs(d.files, cur, segs[cur]);
    EncodeAllConcat(segs[cur], [r]);
    EncodeAllOne(r);
    EncodedParts(r);
  }

  lemma SteadyAfter(before: Disk, d: Disk, name: FileName, full: Bytes)
    requires Steady(before) && Extends(before, d, name, full) && d.Durable(name)
    ensures Steady(d)
  {
  }

  lemma OnlyExtended(before: Disk, d: Disk, name: FileName, full: Bytes)
    requires Extends(before, d, name, full) && d.files[name] == full
    ensures d.files == before.files[name := full]
  {
  }

  lemma CleanButIndex(f: Files, g: Files, segs: Segs)
    requires Clean(f, segs) && IndexFile in g && g == f[IndexFile := g[IndexFile]]
    ensures Clean(g, segs)
  {
  }

  lemma OffsetAfter(rs: seq<Record>, r: Record)
    ensures SizeOf(rs + [r]) == SizeOf(rs) + r.Size()
  {
  }

  /** Every segment file starts with its records, whatever follows them. */
  ghost predicate Holds(files: Files, segs: Segs) {
    forall i :: 0 <= i < |segs| ==> HoldsAt(files, segs, i)
  }

  ghost predicate HoldsAt(files: Files, segs: Segs, i: nat)
    requires i < |segs|
  {
    AllStorable(segs[i]) && (segs[i] != [] ==> Seg(i) in files && EncodeAll(segs[i]) <= files[Seg(i)])
  }

  lemma CleanHolds(files: Files, segs: Segs)
    requires Clean(files, segs)
    ensures Holds(files, segs)
  {
  }

  /** Any files hold what a scan finds in them. */
  lemma ScannedHolds(files: Files, n: nat)
    ensures Holds(files, SegsOf(files, n))
  {
    forall i | 0 <= i < n
      ensures HoldsAt(files, SegsOf(files, n), i)
    {
      if Seg(i) in files {
        ScanIsPrefix(files[Seg(i)]);
      }
    }
  }

  /** A record of a file that starts with `rs`, at its place. */
  lemma RecordInFile(f: Bytes, rs: seq<Record>, j: nat) returns (rest: Bytes)
    requires EncodeAll(rs) <= f && j < |rs|
    ensures Offset(rs, j) <= |f| && f[Offset(rs, j)..] == Encode(rs[j]) + rest
  {
    hide Encode, EncodeAll, Offset;
    RecordAt(rs, j);
    var whole, off, behind := EncodeAll(rs), Offset(rs, j), EncodeAll(rs[j + 1..]);
    assert f[off..] == whole[off..] + f[|whole|..];
    rest := behind + f[|whole|..];
  }

  /** An entry of the scanned index is that of a record of its key, at its place in its segment. */
  lemma EntryPlace(segs: Segs, ix: Index, key: Key) returns (l: Loc, j: nat)
    requires 0 < |segs| <= MAX_SEGMENTS && Total(segs) <= MAX_OFFSET
    requires forall i :: 0 <= i < |segs| ==> AllStorable(segs[i])
    requires Submap(ix, IndexOf(LogOf(segs))) && key in ix
    ensures l == Final(LogOf(segs))[key] && l.rec.key == key && !l.rec.IsDelete()
    ensures l.seg < |segs| && j < |segs[l.seg]| && l.off == Offset(segs[l.seg], j) && l.rec == segs[l.seg][j]
    ensures ix[key].segment == l.seg && ix[key].offset.Get() == l.off
  {
    var sw := Sweep(segs, ix);
    SoundSweep(segs, ix, ix);
    l := KeptPoints(sw, key);
    LogSegs(segs, 0, |segs|);
    FromSegment(sw, l.seg, l);
    FinalIsLast(LogOf(segs), key);
    j :| 0 <= j < |segs[l.seg]| && Located(l.seg, segs[l.seg])[j] == l;
  }

  /** Every index entry points at a complete record of its key, and fetching there gives the visible value. */
  lemma FetchIndexed(files: Files, segs: Segs, ix: Index, key: Key, capacity: nat)
    requires 0 < |segs| <= MAX_SEGMENTS && Holds(files, segs) && Total(segs) <= MAX_OFFSET
    requires Submap(ix, IndexOf(LogOf(segs))) && key in ix
    ensures var s, off, v := ix[key].segment, ix[key].offset.Get(), ViewOf(ix, LogOf(segs))[key].value;
      && Seg(s) in files && off <= |files[Seg(s)]|
      && Fetch(files[Seg(s)][off..], capacity) == Some((|v|, v[..if |v| <= capacity then |v| else capacity]))
    ensures ViewOf(ix, LogOf(segs))[key].key == key && !ViewOf(ix, LogOf(segs))[key].IsDelete()
  {
    hide Fetch, Encode, EncodeAll, Total, Offset;
    forall i | 0 <= i < |segs|
      ensures AllStorable(segs[i])
    {
      assert HoldsAt(files, segs, i);
    }
    var l, j := EntryPlace(segs, ix, key);
    assert HoldsAt(files, segs, l.seg);
    var rest := RecordInFile(files[Seg(l.seg)], segs[l.seg], j);
    FetchEncoded(l.rec, rest, capacity);
  }

  /** What finalising leaves is what recovery promises, the index file aside. */
  lemma FinalizedFiles(f: Files, g: Files, n: nat)
    requires Committed(f) && n > 0
    requires CompactTmp !in f ==> SameExcept(g, f, Segments(n)) && forall i :: 0 <= i < n ==> Seg(i) !in g
    requires CompactTmp in f ==>
      && CompactTmp !in g && Seg(0) in g && g[Seg(0)] == f[CompactTmp]
      && (forall i :: 1 <= i < n ==> Seg(i) !in g) && SameExcept(g, f, Segments(n) + {CompactTmp, IndexFile})
    ensures SameExcept(g - {Journal}, RecoverFiles(f, n), {IndexFile})
  {
    var r := RecoverFiles(f, n);
    assert Seg(0) in Segments(n) && Journal !in Segments(n) && CompactTmp !in Segments(n);
    forall name | name != IndexFile
      ensures name in g - {Journal} <==> name in r
      ensures name in r ==> (g - {Journal})[name] == r[name]
    {
      if name in Segments(n) {
        var i :| 0 <= i < n && name == Seg(i);
      }
    }
  }

  /** Clearing, once the segments are gone. */
  function ClearedDisk(before: Disk, n: nat, reindex: bool, reopen: bool): Disk {
    var gone := WithoutFirst(before, n).Remove(IndexFile);
    var index := if reindex then gone.Touch(IndexFile) else gone;
    if reopen then index.Touch(Seg(0)) else index
  }

  lemma ClearingLeaves(before: Disk, n: nat, reindex: bool, reopen: bool)
    requires 2 <= n <= MAX_SEGMENTS
    ensures var d := ClearedDisk(before, n, reindex, reopen);
      && Wiped(before.files, d.files, n) && (IndexFile in d.files <==> reindex)
      && (reopen ==> Seg(0) in d.files && d.files[Seg(0)] == [])
      && (forall i :: 0 < i < n ==> Seg(i) !in d.files)
  {
    AllGone(before, n);
    forall i | 0 <= i < n
      ensures Seg(i) in Segments(n)
    {
    }
  }

  lemma ClearingSettles(before: Disk, n: nat, reopen: bool)
    requires Steady(before)
    ensures Steady(ClearedDisk(before, n, true, reopen))
  {
    var d := ClearedDisk(before, n, true, reopen);
    forall name | name in d.files && name != CompactTmp
      ensures d.Durable(name)
    {
      if name in WithoutFirst(before, n).Remove(IndexFile).files {
        assert name in before.files && before.Durable(name);
      }
    }
  }

  /** A cleared store with no journal is an empty store. */
  lemma ClearedAgrees(before: Disk, n: nat, reopen: bool)
    requires 2 <= n <= MAX_SEGMENTS && Steady(before) && Journal !in before.files
    ensures Agree(n, ClearedDisk(before, n, true, reopen), Compacted(n, []), [])
    ensures Counted(map[], [], Compacted(n, []), 0, 0) && Complete([], Compacted(n, []))
              && SizeOf(Compacted(n, [])[0]) == 0
  {
    hide Replay, EncodeMutations, LogOf, Total, IndexOf, Settled, ClearedDisk;
    var d := ClearedDisk(before, n, true, reopen);
    ClearingLeaves(before, n, true, reopen);
    ClearingSettles(before, n, reopen);
    EmptyStore(n);
    assert EncodeAll([]) == [];
    forall i | 0 <= i < n
      ensures SegmentIs(d.files, i, Compacted(n, [])[i])
    {
    }
    assert Journal !in Segments(n) + {IndexFile};
  }

  lemma EmptyView(log: seq<Loc>)
    requires log == []
    ensures IndexOf(log) == map[] && ViewOf(map[], log) == map[]
  {
  }

  lemma EmptyStore(n: nat)
    requires 0 < n
    ensures LogOf(Compacted(n, [])) == [] && Total(Compacted(n, [])) == 0 && Puts([]) == 0
    ensures IndexOf([]) == map[] && Replay([]) == map[] && EncodeMutations([]) == []
  {
    CompactedIsLocated(n, []);
    assert MutationBlocks([]) == [];
  }

  /** Opening a segment leaves the agreement. */
  lemma TouchAgrees(n: nat, d: Disk, segs: Segs, ms: seq<Mutation>, id: nat)
    requires Agree(n, d, segs, ms) && id < n
    ensures Agree(n, d.Touch(Seg(id)), segs, ms) && |d.Touch(Seg(id)).files[Seg(id)]| == SizeOf(segs[id])
  {
    hide Clean, Total, LogOf, IndexOf, Replay, EncodeMutations, SizeOf, Settled;
    TouchClean(d, segs, id);
  }

  /** The record is in its place and the mutation is due. */
  lemma StagedAfter(n: nat, before: Disk, d: Disk, segs: Segs, cur: nat, r: Record, ms: seq<Mutation>)
    requires Agree(n, before, segs, ms) && cur < n && Storable(r) && Total(segs) + r.Size() <= MAX_OFFSET
    requires Seg(cur) in before.files && forall i :: cur < i < n ==> Seg(i) !in before.files
    requires d.files == before.files[Seg(cur) := before.files[Seg(cur)] + Encode(r)]
    requires Extends(before, d, Seg(cur), EncodeAll(segs[cur] + [r])) && d.Durable(Seg(cur))
    ensures Staged(n, d, segs, cur, SizeOf(segs[cur]), r, ms)
  {
    hide Clean, Total, LogOf, IndexOf, Replay, EncodeMutations, SizeOf, Settled, Appended, MutationOf, Extends, Puts;
    AppendedLog(segs, cur, r, before.files);
    AppendedClean(before.files, d.files, segs, cur, r);
    AbsentIsEmpty(before.files, segs, cur);
    InStep(segs, cur, r, ms);
    SteadyAfter(before, d, Seg(cur), EncodeAll(segs[cur] + [r]));
  }

  /** With the mutation written the store is one record further. */
  lemma StagedCommits(n: nat, before: Disk, d: Disk, segs: Segs, cur: nat, off: nat, r: Record, ms: seq<Mutation>)
    requires Staged(n, before, segs, cur, off, r, ms)
    requires var m := MutationOf(cur, off, r);
      && d.files == before.files[IndexFile := EncodeMutations(ms + [m])] && Steady(d)
    ensures Agree(n, d, Appended(segs, cur, r), ms + [MutationOf(cur, off, r)])
    ensures Seg(cur) in d.files && (forall i :: cur < i < n ==> Seg(i) !in d.files)
    ensures off + r.Size() == SizeOf(Appended(segs, cur, r)[cur])
  {
    hide Clean, Total, LogOf, IndexOf, Replay, EncodeMutations, Settled, MutationOf, Record.Size;
    CleanButIndex(before.files, d.files, Appended(segs, cur, r));
    OffsetAfter(segs[cur], r);
  }

  lemma SegmentsAgree(n: nat, d: Disk, segs: Segs, ms: seq<Mutation>)
    requires Agree(n, d, segs, ms)
    ensures 2 <= n == |segs| && Journal !in d.files
  {
  }

  lemma JournalStays(sw: Sweep, d: Disk, s: nat)
    requires CopyShape(sw, d, s)
    ensures Journal in d.files
  {
  }

  /** Opening the last segment after a compaction gave up half way is safe. */
  lemma TouchLastSafe(sw: Sweep, d: Disk, s: nat)
    requires sw.Sound() && CopyShape(sw, d, s) && s < |sw.segs|
    ensures CrashSafe(sw, d) && CrashSafe(sw, d.Touch(Seg(|sw.segs| - 1)))
  {
    hide CrashSafe, Sweep.Sound, JournalSays, EncodeAll, Sweep.Copied, Scan;
    var e := d.Touch(Seg(|sw.segs| - 1));
    forall i | s <= i < |sw.segs|
      ensures Intact(sw, e, i)
    {
      assert Intact(sw, d, i);
      TouchIntact(sw, d, i);
    }
    if s > 0 && Seg(s - 1) in d.files {
      assert Intact(sw, d, s - 1);
    }
    JournalStays(sw, d, s);
    JournalUntouched(d, e);
    CopyPhaseSafe(sw, d, s);
    CopyPhaseSafe(sw, e, s);
  }

  lemma JournalUntouched(d: Disk, e: Disk)
    requires Journal in d.files && Journal in e.files && e.files[Journal] == d.files[Journal]
    ensures forall state, next :: JournalSays(d.files, state, next) ==> JournalSays(e.files, state, next)
  {
  }

  lemma TouchIntact(sw: Sweep, d: Disk, i: nat)
    requires i < |sw.segs| && Intact(sw, d, i)
    ensures Intact(sw, d.Touch(Seg(|sw.segs| - 1)), i)
  {
  }

  lemma PrunedIsCounted(ix: Index, pruned: Index, ms: seq<Mutation>, segs: Segs, dead: nat, lapsed: nat,
                        maxRecs: nat, policyTtl: Uint32)
    requires Counted(ix, ms, segs, dead, lapsed) && PrunedTo(ix, pruned, maxRecs, policyTtl)
    ensures |pruned| <= |ix| && Counted(pruned, ms, segs, dead + |ix| - |pruned|, lapsed)
    ensures Submap(pruned, IndexOf(LogOf(segs)))
  {
    hide BottomSet, LogOf, IndexOf, Puts;
    PrunedSmaller(ix, pruned);
  }

  lemma SameWiden(f: Files, g: Files, committed: nat)
    requires committed == 0 ==> SameExcept(f, g, {CompactTmp})
    ensures committed == 0 ==> SameExcept(f, g, {CompactTmp, Journal})
  {
  }

  lemma SameTrans(f: Files, g: Files, h: Files, committed: nat)
    requires committed == 0 ==> SameExcept(f, g, {CompactTmp, Journal})
    requires SameExcept(g, h, {CompactTmp, Journal})
    ensures committed == 0 ==> SameExcept(f, h, {CompactTmp, Journal})
  {
  }

  /** The percentage test fires exactly when dead records are at least a third of the live ones. */
  lemma ThresholdExact(n: nat, d: Disk, segs: Segs, ms: seq<Mutation>, ix: Index, dead: nat, lapsed: nat)
    requires Agree(n, d, segs, ms) && Counted(ix, ms, segs, dead, lapsed)
    ensures |ix| + dead > 0 && Mul32(dead, 100) / (|ix| + dead) >= 25 <==> Due(|ix|, dead)
  {
    hide Clean, Total, LogOf, Replay, IndexOf, Puts, Mul32;
    ThresholdArithmetic(|ix|, dead, lapsed, segs, d.files);
  }

  lemma ActiveIsWhole(n: nat, d: Disk, segs: Segs, ms: seq<Mutation>, cur: nat)
    requires Agree(n, d, segs, ms) && cur < n && Seg(cur) in d.files
    ensures |segs| == n && Clean(d.files, segs) && d.Durable(Seg(cur))
  {
  }

  lemma StagedFacts(n: nat, d: Disk, segs: Segs, cur: nat, off: nat, r: Record, ms: seq<Mutation>)
    requires Staged(n, d, segs, cur, off, r, ms)
    ensures cur < n == |segs| && IndexFile in d.files && d.files[IndexFile] == EncodeMutations(ms)
    ensures d.Durable(IndexFile) && d.Synced(IndexFile) <= |d.files[IndexFile]| && Steady(d)
  {
  }
}
