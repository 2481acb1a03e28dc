/** What a boot makes of the disk a power cut left. */
module Boot {
  import opened Bytes
  import opened Records
  import opened Logs
  import opened Disks
  import opened IndexLog
  import opened Compaction
  import opened Recovery
  import opened StoreSpec
  import opened StoreSteps

  /** The disk a reboot finds: whatever survived is on flash. */
  function Mount(image: Files): Disk {
    Disk(image, map name | name in image :: |image[name]|)
  }

  /** The index file ends with a whole entry. */
  ghost predicate WholeIndex(f: Files) {
    IndexFile in f && f[IndexFile] == EncodeMutations(Mutations(f[IndexFile]))
  }

  /** Recovery finishes a committed copy, and rewrites the index file from it. */
  ghost predicate Rewrites(f: Files) {
    Committed(f) && CompactTmp in f
  }

  /** A committed copy has no tombstones. */
  ghost predicate CopiesPuts(f: Files) {
    Rewrites(f) ==> NoTombstones(Scan(f[CompactTmp]))
  }

  /** The index a boot loads: that of a committed copy, or what the index file replays to, or else what a scan of the
      recovered segments finds. */
  ghost function Loaded(f: Files, n: nat): Index {
    if Rewrites(f) then IndexOf(Located(0, Scan(f[CompactTmp])))
    else if IndexFile in f then Replay(Mutations(f[IndexFile]))
    else IndexOf(RecoveredLog(f, n))
  }

  /** The recovered segments are whole, and the index file, unless it is missing or rewritten, says nothing else than
      they do. */
  ghost predicate Bootable(d: Disk, n: nat) {
    var g := RecoverFiles(d.files, n);
    && 2 <= n <= MAX_SEGMENTS && Clean(g, SegsOf(g, n)) && Total(SegsOf(g, n)) <= MAX_OFFSET
    && Journal !in g && Steady(d) && CopiesPuts(d.files)
    && (!Rewrites(d.files) && IndexFile in g ==>
          WholeIndex(g) && Submap(Replay(Mutations(g[IndexFile])), IndexOf(LogOf(SegsOf(g, n)))))
  }

  // ---------------------------------------------------------------- steps of the boot

  lemma IndexFileRecovers(f: Files, n: nat)
    ensures IndexFile in RecoverFiles(f, n) <==> IndexFile in f
    ensures IndexFile in f ==> RecoverFiles(f, n)[IndexFile] == f[IndexFile]
  {
    assert IndexFile !in Segments(n);
  }

  /** The log a committed copy recovers to is its own. */
  lemma RewrittenLog(f: Files, n: nat)
    requires Rewrites(f) && n > 0
    ensures RecoveredLog(f, n) == Located(0, Scan(f[CompactTmp]))
    ensures SegsOf(RecoverFiles(f, n), n) == Compacted(n, Scan(f[CompactTmp]))
  {
    var g := RecoverFiles(f, n);
    assert CompactTmp !in Segments(n) && Journal !in Segments(n);
    forall i | 0 <= i < n
      ensures SegRecs(g, i) == Compacted(n, Scan(f[CompactTmp]))[i]
    {
      assert Seg(i) in Segments(n);
    }
    assert SegsOf(g, n) == Compacted(n, Scan(f[CompactTmp]));
    CompactedIsLocated(n, Scan(f[CompactTmp]));
  }

  /** What recovery leaves of the files `f` and the index `ix0`. */
  ghost predicate Recovered(f: Files, ix0: Index, g: Files, ix: Index, n: nat) {
    && SameExcept(g, RecoverFiles(f, n), {IndexFile}) && !Committed(g)
    && (!Rewrites(f) ==> g == RecoverFiles(f, n) && ix == ix0)
    && (Rewrites(f) ==>
          && WholeIndex(g) && Replay(Mutations(g[IndexFile])) == ix
          && (NoTombstones(Scan(f[CompactTmp])) ==> ix == IndexOf(Located(0, Scan(f[CompactTmp])))))
  }

  /** A journal stays only where recovery waits for a copy that is not there, and compact.tmp only where no journal
      speaks of it. */
  lemma RecoveryCleans(f: Files, ix0: Index, g: Files, ix: Index, n: nat)
    requires Recovered(f, ix0, g, ix, n)
    ensures Journal in g <==>
              var j := JournalOf(f);
              j.Some? && j.value.state != JOURNAL_COMMIT && j.value.nextSeg > 0 && CompactTmp !in f
    ensures CompactTmp in g <==> CompactTmp in f && JournalOf(f).None?
  {
    hide DecodeJournal, NoTombstones, Scan, Mutations, EncodeMutations, Replay, IndexOf;
    assert CompactTmp !in Segments(n) && Journal !in Segments(n);
  }

  lemma NoJournalRecovered(f: Files, ix: Index, n: nat)
    requires Journal !in f
    ensures Recovered(f, ix, f, ix, n)
  {
  }

  lemma ForeignRecovered(f: Files, ix: Index, n: nat)
    requires Journal in f && JournalOf(f).None?
    ensures Recovered(f, ix, f - {Journal}, ix, n)
  {
  }

  lemma DiscardRecovered(f: Files, ix: Index, n: nat)
    requires Pending(f, 0)
    ensures Recovered(f, ix, f - {CompactTmp} - {Journal}, ix, n)
  {
  }

  lemma RenameRecovered(f: Files, ix: Index, n: nat, s: nat)
    requires Pending(f, s) && s > 0
    ensures CompactTmp in f ==> Recovered(f, ix, (f - {CompactTmp})[Seg(0) := f[CompactTmp]] - {Journal}, ix, n)
    ensures CompactTmp !in f ==> Recovered(f, ix, f, ix, n)
  {
  }

  /** Finishing a committed swap, with the copy there or gone. */
  lemma CommitRecovered(before: Disk, ix0: Index, d: Disk, ix: Index, ms: seq<Mutation>, n: nat)
    requires Committed(before.files) && n > 0
    requires CompactTmp !in before.files ==>
               SegsGone(before, d, n) && ix == ix0 && forall i :: 0 <= i < n ==> Seg(i) !in d.files
    requires CompactTmp in before.files ==>
               && Swapped(before, d, n)
               && IndexFile in d.files && d.files[IndexFile] == EncodeMutations(ms) && Replay(ms) == ix
               && (NoTombstones(Scan(before.files[CompactTmp])) ==>
                     ix == IndexOf(Located(0, Scan(before.files[CompactTmp]))))
    ensures Recovered(before.files, ix0, d.files - {Journal}, ix, n)
  {
    hide Replay, EncodeMutations, Mutations, Scan, IndexOf, NoTombstones, DecodeJournal;
    FinalizedFiles(before.files, d.files, n);
    if CompactTmp in before.files {
      IndexFileReads(d.files[IndexFile], ms);
    } else {
      CommittedGone(before.files, d.files, n);
    }
  }

  lemma CommittedGone(f: Files, g: Files, n: nat)
    requires Committed(f) && CompactTmp !in f && SameExcept(g, f, Segments(n))
    requires forall i :: 0 <= i < n ==> Seg(i) !in g
    ensures g - {Journal} == RecoverFiles(f, n)
  {
  }

  lemma CommitSettles(before: Disk, d: Disk, n: nat)
    requires CompactTmp !in before.files ==> SegsGone(before, d, n) && forall i :: 0 <= i < n ==> Seg(i) !in d.files
    requires CompactTmp in before.files ==> Swapped(before, d, n) && d.Durable(IndexFile)
    ensures Steady(before) ==> Steady(d) && Steady(d.Remove(Journal))
  {
    if Steady(before) {
      if CompactTmp in before.files {
        SwappedSettled(before, d, n);
      } else {
        GoneSteady(before, d, n);
      }
    }
  }

  lemma SwappedSettled(before: Disk, d: Disk, n: nat)
    requires Swapped(before, d, n) && Settled(before) && before.Durable(CompactTmp) && d.Durable(IndexFile)
    ensures Settled(d)
  {
  }

  /** The files `g` and the index `ix` after recovery, and `h` and `index` after the index file is loaded or rebuilt. */
  ghost predicate Reloaded(g: Files, ix: Index, h: Files, index: Index, ms: seq<Mutation>, n: nat) {
    if IndexFile in g then h == g && ms == Mutations(g[IndexFile]) && index == ReplayOn(ix, ms)
    else
      && SameExcept(h, g, {IndexFile}) && IndexFile in h && h[IndexFile] == EncodeMutations(ms)
      && Replay(ms) == index == IndexOf(LogOf(SegsOf(h, n)))
  }

  /** What a boot has loaded, and that the index file says the same, so that the next boot loads it again. */
  lemma BootLoaded(f: Files, g: Files, ix: Index, h: Files, index: Index, ms: seq<Mutation>, n: nat)
    requires n > 0 && Recovered(f, map[], g, ix, n) && Reloaded(g, ix, h, index, ms, n)
    ensures SameExcept(h, RecoverFiles(f, n), {IndexFile}) && !Committed(h)
    ensures IndexFile in h && ms == Mutations(h[IndexFile])
    ensures CopiesPuts(f) ==> index == Loaded(f, n) && Replay(ms) == index
  {
    hide Replay, EncodeMutations, Mutations, Scan, IndexOf, NoTombstones, DecodeJournal, LogOf, RecoverFiles;
    if IndexFile in g {
      if Rewrites(f) {
        ReplayAgain(ms);
      } else {
        ReplayOnNothing(ms);
        IndexFileRecovers(f, n);
      }
    } else {
      IndexFileReads(h[IndexFile], ms);
      IndexFileRecovers(f, n);
      SameSegsSameLog(h, RecoverFiles(f, n), n);
    }
  }

  /** After a boot of a bootable disk everything agrees. */
  lemma BootAgrees(d: Disk, g: Files, ix: Index, e: Disk, index: Index, ms: seq<Mutation>, n: nat)
    requires Bootable(d, n) && Steady(e) && Recovered(d.files, map[], g, ix, n)
    requires Reloaded(g, ix, e.files, index, ms, n)
    ensures SegsOf(e.files, n) == SegsOf(RecoverFiles(d.files, n), n) && Agree(n, e, SegsOf(e.files, n), ms)
    ensures index == Loaded(d.files, n) == Replay(ms)
  {
    hide Total, LogOf, IndexOf, Replay, EncodeMutations, Mutations, RecoverFiles, Scan, DecodeJournal, NoTombstones;
    var r := RecoverFiles(d.files, n);
    BootLoaded(d.files, g, ix, e.files, index, ms, n);
    IndexFileRecovers(d.files, n);
    RewrittenIsScanned(d.files, n);
    BootSegs(r, e.files, n);
    CleanSame(r, e.files, SegsOf(r, n));
  }

  lemma BootSegs(f: Files, g: Files, n: nat)
    requires SameExcept(g, f, {IndexFile})
    ensures SegsOf(g, n) == SegsOf(f, n)
  {
  }

  lemma SameSegNames(f: Files, g: Files, h: Files)
    requires SameExcept(g, f, {IndexFile}) && SameExcept(h, g, {IndexFile})
    ensures forall i {:trigger Seg(i)} :: Seg(i) in h <==> Seg(i) in f
  {
  }

  lemma CommittedSame(f: Files, g: Files)
    requires SameExcept(g, f, {IndexFile})
    ensures Committed(f) <==> Committed(g)
  {
  }

  /** With no committed copy left, the next boot loads what the index file says. */
  lemma BootAgain(d: Disk, cur: nat, index: Index, ms: seq<Mutation>, n: nat)
    requires !Committed(d.files) && IndexFile in d.files && ms == Mutations(d.files[IndexFile])
    ensures var f := d.Touch(Seg(cur)).files;
      CopiesPuts(f) && (Replay(ms) == index ==> Loaded(f, n) == index)
  {
    hide Mutations, Replay, DecodeJournal, RecoveredLog, Scan;
    var f := d.Touch(Seg(cur)).files;
    assert Journal in f <==> Journal in d.files;
    assert !Committed(f);
  }

  lemma TouchedSegs(d: Disk, cur: nat, n: nat)
    ensures SegsOf(d.Touch(Seg(cur)).files, n) == SegsOf(d.files, n)
  {
  }

  /** Whatever the limit evicts at boot, the put records are live, dead, or dead since before. */
  lemma BootCounts(ix: Index, rest: Index, ms: seq<Mutation>, segs: Segs, dead: nat, lapsed: nat)
    requires Submap(ix, IndexOf(LogOf(segs))) && Submap(rest, ix) && Submap(rest, Replay(ms)) && dead + |rest| == |ix|
    requires lapsed == if Puts(LogOf(segs)) >= |ix| then Puts(LogOf(segs)) - |ix| else 0
    ensures Counted(rest, ms, segs, dead, lapsed)
  {
    IndexWithinPuts(LogOf(segs));
    PrunedSmaller(IndexOf(LogOf(segs)), ix);
  }

  lemma FileIsPart(n: nat, d: Disk, segs: Segs, ms: seq<Mutation>)
    requires Agree(n, d, segs, ms)
    ensures Submap(Replay(ms), IndexOf(LogOf(segs)))
  {
  }

  /** A rewritten index file that says less still agrees. */
  lemma LessAgrees(n: nat, d: Disk, e: Disk, segs: Segs, before: seq<Mutation>, ms: seq<Mutation>)
    requires Agree(n, d, segs, before) && SameExcept(e.files, d.files, {IndexFile})
    requires e.Durable(IndexFile) && forall other :: other != IndexFile ==> e.Synced(other) == d.Synced(other)
    requires IndexFile in e.files && e.files[IndexFile] == EncodeMutations(ms) && Submap(Replay(ms), Replay(before))
    ensures Agree(n, e, segs, ms)
  {
    hide Total, LogOf, IndexOf, Replay, EncodeMutations;
    CleanSame(d.files, e.files, segs);
  }

  lemma RewrittenIsScanned(f: Files, n: nat)
    requires n > 0
    ensures Rewrites(f) ==> Loaded(f, n) == IndexOf(LogOf(SegsOf(RecoverFiles(f, n), n)))
  {
    if Rewrites(f) {
      RewrittenLog(f, n);
    }
  }

  // ---------------------------------------------------------------- what a power cut leaves is bootable

  /** An empty disk. */
  lemma NothingOnDisk(n: nat)
    requires 2 <= n <= MAX_SEGMENTS
    ensures Bootable(Disk(map[], map[]), n) && Loaded(map[], n) == map[] && RecoverFiles(map[], n) == map[]
    ensures SegsOf(map[], n) == Compacted(n, []) && LogOf(Compacted(n, [])) == [] && Total(Compacted(n, [])) == 0
    ensures SizeOf(Compacted(n, [])[0]) == 0
  {
    hide LogOf, Total;
    var d := Disk(map[], map[]);
    assert SegsOf(map[], n) == Compacted(n, []);
    EmptyStore(n);
    ClosedBoots(d, n, Compacted(n, []), []);
  }

  /** A store closed between operations, with its index file or without. */
  lemma ClosedBoots(d: Disk, n: nat, segs: Segs, ms: seq<Mutation>)
    requires 2 <= n == |segs| <= MAX_SEGMENTS && Clean(d.files, segs) && Total(segs) <= MAX_OFFSET
    requires Journal !in d.files && Steady(d)
    requires IndexFile in d.files ==>
               d.files[IndexFile] == EncodeMutations(ms) && Submap(Replay(ms), IndexOf(LogOf(segs)))
    ensures Bootable(d, n) && SegsOf(RecoverFiles(d.files, n), n) == segs
    ensures Loaded(d.files, n) == if IndexFile in d.files then Replay(ms) else IndexOf(LogOf(segs))
  {
    hide Total, LogOf, IndexOf, Replay, EncodeMutations, Clean;
    CleanScans(d.files, segs);
    if IndexFile in d.files {
      IndexFileReads(d.files[IndexFile], ms);
    }
  }

  /** Opening a store again after it was closed between operations: what the index file replays to is loaded, which has
      all that was visible, and has nothing else exactly when the index was all of it.  It is not after an eviction that
      a put made, or once an expired entry was dropped: neither is written to the index file. */
  lemma ReopenShows(d: Disk, n: nat, segs: Segs, ms: seq<Mutation>, ix: Index, dead: nat, lapsed: nat)
    requires Agree(n, d, segs, ms) && Counted(ix, ms, segs, dead, lapsed)
    ensures 2 <= n <= MAX_SEGMENTS && Bootable(d, n)
    ensures SegsOf(RecoverFiles(d.files, n), n) == segs && Loaded(d.files, n) == Replay(ms)
    ensures Submap(ViewOf(ix, LogOf(segs)), ViewOf(Replay(ms), LogOf(segs)))
    ensures |ViewOf(Replay(ms), LogOf(segs))| == |Replay(ms)|
    ensures ViewOf(Replay(ms), LogOf(segs)) == ViewOf(ix, LogOf(segs)) <==> ix == Replay(ms)
  {
    hide Total, LogOf, IndexOf, Replay, EncodeMutations, Clean, Settled, Puts, ViewOf, Bootable, Loaded, RecoverFiles;
    ClosedBoots(d, n, segs, ms);
    ViewSize(ix, LogOf(segs));
    ViewSize(Replay(ms), LogOf(segs));
    PrunedView(Replay(ms), ix, LogOf(segs));
  }

  /** A cut while a compaction has not deleted anything: the journal and the copy are dropped, nothing else. */
  lemma DiscardBoots(n: nat, d: Disk, image: Files, segs: Segs, ms: seq<Mutation>)
    requires AgreeOn(n, d.files, segs, ms) && Settled(d) && CrashImage(d, image)
    requires JournalSays(d.files, JOURNAL_COMPACTING, 0)
    ensures Bootable(Mount(image), n) && SegsOf(RecoverFiles(image, n), n) == segs
    ensures Loaded(image, n) == Replay(ms)
  {
    hide Total, LogOf, IndexOf, Replay, EncodeMutations, Mutations, DecodeJournal;
    SettledImage(d, image);
    var g := RecoverFiles(image, n);
    assert JournalSays(image, JOURNAL_COMPACTING, 0);
    assert g == image - {CompactTmp, Journal};
    CleanSame(d.files, g, segs);
    CleanScans(g, segs);
    IndexFileReads(g[IndexFile], ms);
    MountSettled(image);
  }

  lemma SettledImage(d: Disk, image: Files)
    requires Settled(d) && CrashImage(d, image)
    ensures SameExcept(image, d.files, {CompactTmp})
  {
  }

  lemma MountSettled(image: Files)
    ensures Steady(Mount(image))
  {
  }

  /** A cut between the commit and the rename: the copy becomes the store, index file and all. */
  lemma CommitBoots(sw: Sweep, d: Disk, image: Files, n: nat)
    requires sw.Sound() && 2 <= n == |sw.segs| <= MAX_SEGMENTS && Total(sw.segs) <= MAX_OFFSET
    requires CommitShape(sw, d) && CrashImage(d, image)
    ensures Bootable(Mount(image), n) && SegsOf(RecoverFiles(image, n), n) == Compacted(n, sw.All())
    ensures Loaded(image, n) == IndexOf(Located(0, sw.All()))
    ensures Contents(RecoveredLog(image, n)) == ViewOf(sw.keep, sw.Log())
  {
    hide Total, LogOf, IndexOf, EncodeAll, Scan, Sweep.All, Sweep.Sound, DecodeJournal, Contents, Final, Located;
    JournalOfImage(d, image, JOURNAL_COMMIT, 0);
    DurableSurvives(d, image, CompactTmp);
    CopyScans(sw);
    RewrittenLog(image, n);
    SwapContents(sw, n);
    CommittedClean(sw, image, n);
    MountSettled(image);
  }

  lemma CommittedClean(sw: Sweep, image: Files, n: nat)
    requires sw.Sound() && 0 < n == |sw.segs|
    requires JournalSays(image, JOURNAL_COMMIT, 0) && CompactTmp in image && image[CompactTmp] == EncodeAll(sw.All())
    ensures Clean(RecoverFiles(image, n), Compacted(n, sw.All())) && Journal !in RecoverFiles(image, n)
  {
    hide EncodeAll, Scan, DecodeJournal, Sweep.Sound, Sweep.Copied;
    CopiedStorable(sw, n);
    assert CompactTmp !in Segments(n) && Journal !in Segments(n);
    forall i | 0 <= i < n
      ensures SegmentIs(RecoverFiles(image, n), i, Compacted(n, sw.All())[i])
    {
      assert Seg(i) in Segments(n);
    }
  }

  /** A get through `ix` reads exactly `contents` off the files. */
  ghost predicate Serves(files: Files, ix: Index, contents: map<Key, Record>) {
    && ix.Keys == contents.Keys
    && forall k, capacity: nat :: k in ix ==> Reads(files, ix[k], capacity, contents[k].value)
  }

  ghost predicate Reads(files: Files, e: Entry, capacity: nat, v: Bytes) {
    && Seg(e.segment) in files && e.offset.Get() <= |files[Seg(e.segment)]|
    && Fetch(files[Seg(e.segment)][e.offset.Get()..], capacity)
       == Some((|v|, v[..if |v| <= capacity then |v| else capacity]))
  }

  lemma HoldsServes(files: Files, segs: Segs, ix: Index)
    requires 0 < |segs| <= MAX_SEGMENTS && Holds(files, segs) && Total(segs) <= MAX_OFFSET
    requires Submap(ix, IndexOf(LogOf(segs)))
    ensures Serves(files, ix, ViewOf(ix, LogOf(segs)))
  {
    hide Holds, Fetch, Total, LogOf, IndexOf, ViewOf;
    ViewSize(ix, LogOf(segs));
    forall k, capacity: nat | k in ix
      ensures Reads(files, ix[k], capacity, ViewOf(ix, LogOf(segs))[k].value)
    {
      FetchIndexed(files, segs, ix, k, capacity);
    }
  }

  /** A cut while a record is being logged: what is loaded is what the index file said before or will say after, and it
      reads exactly the records it stands for, even when the index file is behind the segments or a torn record follows
      the whole ones. */
  lemma LoggingBoots(n: nat, segs: Segs, cur: nat, off: nat, r: Record, ms: seq<Mutation>, d: Disk, image: Files)
    requires cur < |segs| == n <= MAX_SEGMENTS && CrashImage(d, image)
    requires LogSafe(segs, cur, r, ms, MutationOf(cur, off, r), d)
    requires Submap(Replay(ms), IndexOf(LogOf(segs))) && Total(segs) <= MAX_OFFSET
    requires Submap(Replay(ms + [MutationOf(cur, off, r)]), IndexOf(LogOf(Appended(segs, cur, r))))
    requires Total(Appended(segs, cur, r)) <= MAX_OFFSET
    ensures var before, after := Replay(ms), Replay(ms + [MutationOf(cur, off, r)]);
      || (Loaded(image, n) == before && Serves(image, before, ViewOf(before, LogOf(segs))))
      || (Loaded(image, n) == after && Serves(image, after, ViewOf(after, LogOf(Appended(segs, cur, r)))))
  {
    hide LogOf, IndexOf, Replay, Mutations, SegsOf, SegRecs, Scan, EncodeAll, Holds, Total, ViewOf, Serves, MutationOf;
    ScannedHolds(image, n);
    if SegsOf(image, n) == Appended(segs, cur, r) {
      HoldsLess(image, segs, cur, r);
      HoldsServes(image, Appended(segs, cur, r), Replay(ms + [MutationOf(cur, off, r)]));
    }
    HoldsServes(image, segs, Replay(ms));
  }

  lemma HoldsLess(files: Files, segs: Segs, cur: nat, r: Record)
    requires cur < |segs| && Holds(files, Appended(segs, cur, r))
    ensures Holds(files, segs)
  {
    hide EncodeAll;
    forall i | 0 <= i < |segs|
      ensures HoldsAt(files, segs, i)
    {
      assert HoldsAt(files, Appended(segs, cur, r), i);
      if i == cur {
        EncodeAllConcat(segs[i], [r]);
        assert forall j :: 0 <= j < |segs[i]| ==> segs[i][j] == (segs[i] + [r])[j];
      }
    }
  }

  /** The journal of a pending copy that recovery makes segment 0. */
  predicate ComesBack(f: Files) {
    && CompactTmp in f && JournalOf(f).Some?
    && (JournalOf(f).value.state == JOURNAL_COMMIT || JournalOf(f).value.nextSeg > 0)
  }

  /** Clearing leaves a journal and its copy alone.  The next boot scans nothing unless such a copy comes back, and
      loads nothing unless it is a committed one. */
  lemma ClearedBoots(f: Files, g: Files, n: nat)
    requires n > 0 && Wiped(f, g, n) && IndexFile in g
    ensures RecoveredLog(g, n) == if ComesBack(f) then Located(0, Scan(f[CompactTmp])) else []
    ensures Loaded(g, n) == if Rewrites(f) then IndexOf(Located(0, Scan(f[CompactTmp]))) else map[]
  {
    hide LogRange, DecodeJournal, Parse;
    assert Journal !in Segments(n) + {IndexFile} && CompactTmp !in Segments(n) + {IndexFile};
    var r := RecoverFiles(g, n);
    EmptyIndexFile();
    forall i | 0 <= i < n
      ensures SegRecs(r, i) == if i == 0 && ComesBack(f) then Scan(f[CompactTmp]) else []
    {
      assert Seg(i) in Segments(n);
      EmptySegment();
    }
    if ComesBack(f) {
      assert SegsOf(r, n) == Compacted(n, Scan(f[CompactTmp]));
      CompactedIsLocated(n, Scan(f[CompactTmp]));
    } else {
      LogRangeEmpty(SegsOf(r, n), 0, n);
    }
  }

  lemma EmptySegment()
    ensures Scan([]) == []
  {
    assert Parse([]).None?;
  }

  lemma EmptyIndexFile()
    ensures Mutations([]) == [] && Replay([]) == map[]
  {
    assert ParseMutation([]).None?;
  }

  /** A boot whose own rewriting of the index file was cut: the next one finds no index file and scans, or loads a part
      of the index, and all of it exactly when no byte was missing. */
  lemma RewriteBoots(d: Disk, ix: Index, full: Bytes, image: Files, n: nat)
    requires Rewriting(d, ix, full) && CrashImage(d, image) && !Rewrites(image)
    ensures IndexFile !in image ==> Loaded(image, n) == IndexOf(RecoveredLog(image, n))
    ensures IndexFile in image ==>
              Submap(Loaded(image, n), ix) && (Loaded(image, n) == ix <==> image[IndexFile] == full)
  {
  }
}
