/** What boot does with the journal, and why every moment of a compaction can be recovered from. */
module Recovery {
  import opened Bytes
  import opened Records
  import opened Logs
  import opened Disks
  import opened Compaction

  /** The boot-time reaction to the journal, file by file; the index file is rewritten separately. */
  function RecoverFiles(f: Files, n: nat): Files {
    if Journal !in f then f
    else
      match JournalOf(f)
      case None => f - {Journal}
      case Some(j) =>
        if j.state == JOURNAL_COMMIT then
          var g := f - Segments(n);
          (if CompactTmp in g then (g - {CompactTmp})[Seg(0) := g[CompactTmp]] else g) - {Journal}
        else if j.nextSeg == 0 then f - {CompactTmp, Journal}
        else if CompactTmp in f then (f - {CompactTmp})[Seg(0) := f[CompactTmp]] - {Journal}
        else f
  }

  /** The log a rebuild scans after recovery. */
  function RecoveredLog(f: Files, n: nat): seq<Loc> {
    LogOf(SegsOf(RecoverFiles(f, n), n))
  }

  /** Segment `i` on disk, flushed, still holds the records the compaction started from. */
  ghost predicate Intact(sw: Sweep, d: Disk, i: nat)
    requires i < |sw.segs|
  {
    SegRecs(d.files, i) == sw.segs[i] && d.Durable(Seg(i))
  }

  /** The disk while segment `s` is being copied: what segments before `s` keep is in compact.tmp, flushed, and
      the journal says so; segment `s-1` may not have been deleted yet; compact.tmp may hold more, up to any
      byte of segment `s`'s records. */
  ghost predicate CopyShape(sw: Sweep, d: Disk, s: nat) {
    && s <= |sw.segs|
    && JournalSays(d.files, JOURNAL_COMPACTING, s)
    && d.Durable(Journal)
    && (forall i :: s <= i < |sw.segs| ==> Intact(sw, d, i))
    && (s > 0 ==>
          && CompactTmp in d.files
          && EncodeAll(sw.Copied(s)) <= d.files[CompactTmp] <= EncodeAll(sw.Copied(if s < |sw.segs| then s + 1 else s))
          && |EncodeAll(sw.Copied(s))| <= d.Synced(CompactTmp)
          && (Seg(s - 1) in d.files ==> Intact(sw, d, s - 1))
          && (forall i :: 0 <= i < s - 1 ==> Seg(i) !in d.files))
  }

  /** The disk after the commit: compact.tmp is complete, the sources are on their way out. */
  ghost predicate CommitShape(sw: Sweep, d: Disk) {
    && JournalSays(d.files, JOURNAL_COMMIT, 0)
    && d.Durable(Journal)
    && CompactTmp in d.files && d.files[CompactTmp] == EncodeAll(sw.All()) && d.Durable(CompactTmp)
  }

  /** The disk after the rename: segment 0 is the complete copy and no other segment is left. */
  ghost predicate SwappedShape(sw: Sweep, d: Disk) {
    && Seg(0) in d.files && d.files[Seg(0)] == EncodeAll(sw.All()) && d.Durable(Seg(0))
    && (forall i :: 1 <= i < |sw.segs| ==> Seg(i) !in d.files)
    && CompactTmp !in d.files
  }

  /** Whatever a power cut leaves of `d`, recovery and a rebuild preserve the contents. */
  ghost predicate CrashSafe(sw: Sweep, d: Disk) {
    forall image :: CrashImage(d, image) ==> sw.Preserved(Contents(RecoveredLog(image, |sw.segs|)))
  }

  lemma JournalOfImage(d: Disk, image: Files, state: Uint32, next: nat)
    requires CrashImage(d, image) && d.Durable(Journal) && JournalSays(d.files, state, next)
    ensures JournalSays(image, state, next)
  {
    DurableSurvives(d, image, Journal);
  }

  lemma IntactSurvives(sw: Sweep, d: Disk, image: Files, rec: Files, i: nat)
    requires i < |sw.segs| && Intact(sw, d, i) && CrashImage(d, image)
    requires (Seg(i) in rec <==> Seg(i) in image) && (Seg(i) in rec ==> rec[Seg(i)] == image[Seg(i)])
    ensures SegRecs(rec, i) == sw.segs[i]
  {
    if Seg(i) in d.files {
      DurableSurvives(d, image, Seg(i));
    }
  }

  /** However much of compact.tmp beyond the flushed part survives, it scans to whole records. */
  lemma SurvivingCopies(sw: Sweep, s: nat, top: nat, tmp: Bytes) returns (rs: seq<Record>)
    requires sw.Sound() && s <= top <= |sw.segs|
    requires tmp <= EncodeAll(sw.Copied(top)) && |EncodeAll(sw.Copied(s))| <= |tmp|
    ensures rs == Scan(tmp) && sw.Copied(s) <= rs <= sw.All()
  {
    CopiedGrows(sw, s, top);
    CopiedStorable(sw, top);
    assert sw.Copied(top)[..|sw.Copied(s)|] == sw.Copied(s);
    var j := ScanOfPrefix(sw.Copied(top), |sw.Copied(s)|, tmp);
    rs := sw.Copied(top)[..j];
    CopiedGrows(sw, top, |sw.segs|);
  }

  /** Segments that recovery leaves alone hold what they held. */
  lemma RecoveredTail(sw: Sweep, d: Disk, image: Files, rec: Files, cut: nat)
    requires CrashImage(d, image) && 1 <= cut <= |sw.segs|
    requires forall i :: cut <= i < |sw.segs| ==> Intact(sw, d, i)
    requires forall i {:trigger Seg(i)} :: 1 <= i ==> (Seg(i) in rec <==> Seg(i) in image)
    requires forall i {:trigger Seg(i)} :: 1 <= i && Seg(i) in rec ==> rec[Seg(i)] == image[Seg(i)]
    ensures forall i {:trigger SegRecs(rec, i)} :: cut <= i < |sw.segs| ==> SegRecs(rec, i) == sw.segs[i]
  {
    forall i | cut <= i < |sw.segs|
      ensures SegRecs(rec, i) == sw.segs[i]
    {
      IntactSurvives(sw, d, image, rec, i);
    }
  }

  /** With sources already deleted, recovery makes compact.tmp segment 0 and leaves the others alone. */
  lemma CopyRecovered(image: Files, n: nat, s: nat)
    requires JournalSays(image, JOURNAL_COMPACTING, s) && 0 < s && CompactTmp in image
    ensures SegRecs(RecoverFiles(image, n), 0) == Scan(image[CompactTmp])
    ensures forall i {:trigger Seg(i)} :: 1 <= i ==> (Seg(i) in RecoverFiles(image, n) <==> Seg(i) in image)
    ensures forall i {:trigger Seg(i)} :: 1 <= i && Seg(i) in image ==> RecoverFiles(image, n)[Seg(i)] == image[Seg(i)]
  {
    assert RecoverFiles(image, n) == (image - {CompactTmp})[Seg(0) := image[CompactTmp]] - {Journal};
  }

  /** The first segment that recovery leaves alone when `s` segments were checkpointed: deleting the last of them may
      have been cut short, unless it is segment 0, which the copy replaces. */
  function CutOf(image: Files, s: nat): nat {
    if s > 1 && Seg(s - 1) in image then s - 1 else s
  }

  /** What the recovered segments hold when sources have already been deleted. */
  lemma RecoveredCopyLog(sw: Sweep, d: Disk, s: nat, image: Files, rec: Files) returns (cut: nat, rs: seq<Record>)
    requires sw.Sound() && CopyShape(sw, d, s) && 0 < s && CrashImage(d, image)
    requires SegRecs(rec, 0) == Scan(image[CompactTmp])
    requires forall i {:trigger Seg(i)} :: 1 <= i ==> (Seg(i) in rec <==> Seg(i) in image)
    requires forall i {:trigger Seg(i)} :: 1 <= i && Seg(i) in image ==> rec[Seg(i)] == image[Seg(i)]
    ensures cut == CutOf(image, s) <= s && rs == Scan(image[CompactTmp]) && sw.Copied(s) <= rs <= sw.All()
    ensures LogOf(SegsOf(rec, |sw.segs|)) == Located(0, rs) + LogRange(sw.segs, cut, |sw.segs|)
  {
    hide LogRange, Located, Scan, EncodeAll, DecodeJournal, Sweep.Sound, Sweep.Copied;
    var n := |sw.segs|;
    rs := SurvivingCopies(sw, s, if s < n then s + 1 else s, image[CompactTmp]);
    cut := CutOf(image, s);
    RecoveredTail(sw, d, image, rec, cut);
    LogFromSegZero(SegsOf(rec, n), sw.segs, rs, cut);
  }

  /** Cut the power at any moment of the copying phase: recovery restores the kept entries. */
  lemma CopyPhaseSafe(sw: Sweep, d: Disk, s: nat)
    requires sw.Sound() && CopyShape(sw, d, s)
    ensures CrashSafe(sw, d)
  {
    forall image | CrashImage(d, image)
      ensures sw.Preserved(Contents(RecoveredLog(image, |sw.segs|)))
    {
      if s == 0 {
        NothingDeletedYet(sw, d, image);
      } else {
        JournalOfImage(d, image, JOURNAL_COMPACTING, s);
        CopyRecovered(image, |sw.segs|, s);
        var cut, rs := RecoveredCopyLog(sw, d, s, image, RecoverFiles(image, |sw.segs|));
        CopiedGrows(sw, cut, s);
        MixedLog(sw, cut, rs);
      }
    }
  }

  lemma NothingDeletedYet(sw: Sweep, d: Disk, image: Files)
    requires sw.Sound() && CopyShape(sw, d, 0) && CrashImage(d, image)
    ensures sw.Preserved(Contents(RecoveredLog(image, |sw.segs|)))
  {
    hide Scan, DecodeJournal, LogRange;
    var n := |sw.segs|;
    JournalOfImage(d, image, JOURNAL_COMPACTING, 0);
    var rec := RecoverFiles(image, n);
    assert rec == image - {CompactTmp, Journal};
    forall i | 0 <= i < n
      ensures SegRecs(rec, i) == sw.segs[i]
    {
      IntactSurvives(sw, d, image, rec, i);
    }
    assert SegsOf(rec, n) == sw.segs;
  }

  /** The disk between two segments: exactly segments `0..s-1` are in compact.tmp, and gone. */
  ghost predicate MidwayShape(sw: Sweep, d: Disk, s: nat) {
    && s <= |sw.segs|
    && JournalSays(d.files, JOURNAL_COMPACTING, s)
    && d.Durable(Journal)
    && CompactTmp in d.files && d.files[CompactTmp] == EncodeAll(sw.Copied(s))
    && (s > 0 ==> d.Durable(CompactTmp))
    && (forall i :: s <= i < |sw.segs| ==> Intact(sw, d, i))
    && (forall i :: 0 <= i < s ==> Seg(i) !in d.files)
  }

  lemma MidwayIsCopying(sw: Sweep, d: Disk, s: nat)
    requires MidwayShape(sw, d, s)
    ensures CopyShape(sw, d, s)
  {
    if s < |sw.segs| {
      CopiedGrows(sw, s, s + 1);
      EncodedPrefix(sw.Copied(s), sw.Copied(s + 1));
    }
  }

  lemma EncodedPrefix(a: seq<Record>, b: seq<Record>)
    requires a <= b
    ensures EncodeAll(a) <= EncodeAll(b)
  {
    assert b == a + b[|a|..];
    EncodeAllConcat(a, b[|a|..]);
  }

  /** All of segment `s` is in compact.tmp and flushed, and the journal still says `s`. */
  ghost predicate FlushedShape(sw: Sweep, d: Disk, s: nat) {
    && s < |sw.segs| && CopyShape(sw, d, s)
    && CompactTmp in d.files && d.files[CompactTmp] == EncodeAll(sw.Copied(s + 1)) && d.Durable(CompactTmp)
    && (forall i :: 0 <= i < s ==> Seg(i) !in d.files)
  }

  lemma FlushShape(sw: Sweep, d: Disk, s: nat)
    requires CopyShape(sw, d, s) && s < |sw.segs|
    requires CompactTmp in d.files && d.files[CompactTmp] == EncodeAll(sw.Copied(s + 1))
    requires forall i :: 0 <= i < s ==> Seg(i) !in d.files
    ensures FlushedShape(sw, d.Flush(CompactTmp), s)
  {
    CopiedGrows(sw, s, s + 1);
    EncodedPrefix(sw.Copied(s), sw.Copied(s + 1));
    forall i | s <= i < |sw.segs|
      ensures Intact(sw, d.Flush(CompactTmp), i)
    {
      assert Intact(sw, d, i);
    }
  }

  /** Journaling segment `s` as committed, before its source is deleted. */
  lemma JournaledShape(sw: Sweep, d: Disk, s: nat, e: Disk)
    requires FlushedShape(sw, d, s)
    requires Journal in e.files && e == d.Overwrite(Journal, e.files[Journal])
    requires JournalSays(e.files, JOURNAL_COMPACTING, s + 1)
    ensures CopyShape(sw, e, s + 1)
  {
    hide JournalSays, EncodeAll, Sweep.Copied, Scan;
    forall i | s <= i < |sw.segs|
      ensures Intact(sw, e, i)
    {
      assert Intact(sw, d, i);
    }
    if s + 1 < |sw.segs| {
      CopiedGrows(sw, s + 1, s + 2);
      EncodedPrefix(sw.Copied(s + 1), sw.Copied(s + 2));
    }
  }

  /** Deleting the journaled source. */
  lemma DeletedShape(sw: Sweep, d: Disk, s: nat)
    requires s < |sw.segs| && CopyShape(sw, d, s + 1)
    requires CompactTmp in d.files && d.files[CompactTmp] == EncodeAll(sw.Copied(s + 1)) && d.Durable(CompactTmp)
    ensures MidwayShape(sw, d.Remove(Seg(s)), s + 1)
  {
    hide DecodeJournal, EncodeAll, Sweep.Copied, Scan;
    forall i | s + 1 <= i < |sw.segs|
      ensures Intact(sw, d.Remove(Seg(s)), i)
    {
      assert Intact(sw, d, i);
    }
  }

  /** Writing on towards the records of segment `s` keeps the copying shape. */
  lemma CopyShapeAppend(sw: Sweep, d: Disk, s: nat, data: Bytes)
    requires CopyShape(sw, d, s) && s < |sw.segs| && CompactTmp in d.files
    requires d.files[CompactTmp] + data <= EncodeAll(sw.Copied(s + 1))
    ensures CopyShape(sw, d.Append(CompactTmp, data), s)
  {
    var e := d.Append(CompactTmp, data);
    forall i | s <= i < |sw.segs|
      ensures Intact(sw, e, i)
    {
      assert Intact(sw, d, i);
    }
  }

  /** Segment 0 holds the complete copy and no other segment is left. */
  lemma CompactedLog(sw: Sweep, files: Files)
    requires sw.Sound()
    requires Seg(0) in files && files[Seg(0)] == EncodeAll(sw.All())
    requires forall i :: 1 <= i < |sw.segs| ==> Seg(i) !in files
    ensures SegRecs(files, 0) == sw.All()
    ensures LogOf(SegsOf(files, |sw.segs|)) == Located(0, sw.All())
  {
    var n := |sw.segs|;
    CopiedStorable(sw, n);
    ScanRoundTrip(sw.All(), []);
    assert EncodeAll(sw.All()) + [] == EncodeAll(sw.All());
    LogFromSegZero(SegsOf(files, n), sw.segs, sw.All(), n);
  }

  /** Cut the power at any moment between the commit and the rename: recovery completes the swap. */
  lemma CommitPhaseSafe(sw: Sweep, d: Disk)
    requires sw.Sound() && CommitShape(sw, d)
    ensures CrashSafe(sw, d)
  {
    forall image | CrashImage(d, image)
      ensures sw.Preserved(Contents(RecoveredLog(image, |sw.segs|)))
    {
      JournalOfImage(d, image, JOURNAL_COMMIT, 0);
      DurableSurvives(d, image, CompactTmp);
      CompactedLog(sw, RecoverFiles(image, |sw.segs|));
      CopyAlone(sw);
    }
  }

  lemma SwappedIsLost(d: Disk, image: Files, n: nat)
    requires CrashImage(d, image) && InSwap(d)
    ensures RecoveredLog(image, n) == []
  {
    JournalOfImage(d, image, JOURNAL_COMMIT, 0);
    var rec := RecoverFiles(image, n);
    assert rec == image - Segments(n) - {Journal};
    forall i | 0 <= i < n
      ensures Seg(i) !in rec
    {
      assert Seg(i) in Segments(n);
    }
    LogRangeEmpty(SegsOf(rec, n), 0, n);
  }

  /** A committed copy has been renamed and its journal not yet cleared. */
  ghost predicate InSwap(d: Disk) {
    JournalSays(d.files, JOURNAL_COMMIT, 0) && d.Durable(Journal) && CompactTmp !in d.files
  }

  /** After the rename the commit journal is still there for a moment.  Recovery then deletes segment 0 and has
      nothing to rename, so the store comes back empty: that moment is safe exactly when nothing was kept. */
  lemma SwappedSafeIffNothingKept(sw: Sweep, d: Disk)
    requires InSwap(d)
    ensures CrashSafe(sw, d) <==> sw.keep == map[]
  {
    forall image | CrashImage(d, image)
      ensures Contents(RecoveredLog(image, |sw.segs|)) == map[]
    {
      SwappedIsLost(d, image, |sw.segs|);
    }
    PreservedEmpty(sw);
    FilesAreAnImage(d);
  }

  lemma PreservedEmpty(sw: Sweep)
    ensures sw.Preserved(map[]) <==> sw.keep == map[]
  {
  }

  lemma FilesAreAnImage(d: Disk)
    ensures CrashImage(d, d.files)
  {
  }

  /** Once the journal is cleared the swapped disk needs no recovery at all. */
  lemma ClearedSafe(sw: Sweep, d: Disk)
    requires sw.Sound() && SwappedShape(sw, d) && Journal !in d.files
    ensures CrashSafe(sw, d)
  {
    forall image | CrashImage(d, image)
      ensures sw.Preserved(Contents(RecoveredLog(image, |sw.segs|)))
    {
      DurableSurvives(d, image, Seg(0));
      CompactedLog(sw, image);
      CopyAlone(sw);
    }
  }

  /** Without a journal a boot finds the segments as they are. */
  lemma QuietSafe(sw: Sweep, d: Disk)
    requires sw.Sound() && Journal !in d.files
    requires forall i :: 0 <= i < |sw.segs| ==> Intact(sw, d, i)
    ensures CrashSafe(sw, d)
  {
    hide LogRange, Final;
    forall image | CrashImage(d, image)
      ensures sw.Preserved(Contents(RecoveredLog(image, |sw.segs|)))
    {
      forall i | 0 <= i < |sw.segs|
        ensures SegRecs(image, i) == sw.segs[i]
      {
        IntactSurvives(sw, d, image, image, i);
      }
      assert SegsOf(image, |sw.segs|) == sw.segs;
    }
  }

  /** With every final record kept, any power cut at a safe moment loses nothing and changes nothing. */
  lemma NothingLost(sw: Sweep, d: Disk, image: Files)
    requires CrashSafe(sw, d) && CrashImage(d, image) && sw.keep == IndexOf(sw.Log())
    ensures Contents(RecoveredLog(image, |sw.segs|)) == Contents(sw.Log())
  {
  }

  /** The journal of a committed copy, whatever segment it names. */
  predicate Committed(f: Files) {
    JournalOf(f).Some? && JournalOf(f).value.state == JOURNAL_COMMIT
  }

  /** The journal of a copy that was not committed, with `s` segments checkpointed. */
  predicate Pending(f: Files, s: nat) {
    JournalOf(f).Some? && JournalOf(f).value.state != JOURNAL_COMMIT && JournalOf(f).value.nextSeg == s
  }

  /** Recovering from `g` ends with the same log as recovering from `f`. */
  ghost predicate SameRecovery(f: Files, g: Files, n: nat) {
    RecoveredLog(g, n) == RecoveredLog(f, n)
  }

  /** A second power cut while `d`, everything flushed, is being recovered changes nothing. */
  lemma RerunSafe(sw: Sweep, f: Files, d: Disk)
    requires SameRecovery(f, d.files, |sw.segs|) && Steady(d)
    ensures forall image :: CrashImage(d, image) ==> SameRecovery(f, image, |sw.segs|)
    ensures sw.Preserved(Contents(RecoveredLog(f, |sw.segs|))) ==> CrashSafe(sw, d)
  {
    hide RecoverFiles, LogOf, Sweep.Preserved;
    forall image | CrashImage(d, image)
      ensures image == d.files
    {
      SteadyImage(d, image);
    }
  }

  lemma SameSegsSameLog(f: Files, g: Files, n: nat)
    requires SameExcept(f, g, {IndexFile, Journal, CompactTmp})
    ensures LogOf(SegsOf(f, n)) == LogOf(SegsOf(g, n))
  {
    forall i | 0 <= i < n
      ensures SegRecs(f, i) == SegRecs(g, i)
    {
      assert Seg(i) !in {IndexFile, Journal, CompactTmp};
    }
    assert SegsOf(f, n) == SegsOf(g, n);
  }

  /** Discarding an unusable journal, cut short anywhere, recovers the same. */
  lemma RerunForeign(f: Files, n: nat)
    requires Journal in f && JournalOf(f).None?
    ensures SameRecovery(f, f - {Journal}, n)
  {
  }

  /** Discarding a copy that has replaced nothing yet, cut short anywhere, recovers the same. */
  lemma RerunDiscard(f: Files, n: nat)
    requires Pending(f, 0)
    ensures SameRecovery(f, f - {CompactTmp}, n) && SameRecovery(f, f - {CompactTmp} - {Journal}, n)
  {
    var g := f - {CompactTmp};
    assert g[Journal] == f[Journal];
    SameSegsSameLog(RecoverFiles(f, n), RecoverFiles(g, n), n);
    SameSegsSameLog(RecoverFiles(f, n), g - {Journal}, n);
  }

  /** Renaming the copy over segment 0, cut short before the journal is cleared, recovers the same: the rerun finds
      nothing to rename and leaves everything in place. */
  lemma RerunRename(f: Files, n: nat, s: nat)
    requires Pending(f, s) && s > 0 && CompactTmp in f
    ensures var g := (f - {CompactTmp})[Seg(0) := f[CompactTmp]];
      SameRecovery(f, g, n) && SameRecovery(f, g - {Journal}, n)
  {
    var g := (f - {CompactTmp})[Seg(0) := f[CompactTmp]];
    assert g[Journal] == f[Journal];
    assert RecoverFiles(g, n) == g;
    SameSegsSameLog(RecoverFiles(f, n), g, n);
    SameSegsSameLog(RecoverFiles(f, n), g - {Journal}, n);
  }

  /** Deleting sources after the commit, cut short anywhere, recovers the same. */
  lemma RerunCommit(f: Files, g: Files, n: nat)
    requires Committed(f) && SameExcept(g, f, Segments(n))
    ensures SameRecovery(f, g, n)
  {
    assert Journal !in Segments(n) && CompactTmp !in Segments(n);
    var a, b := RecoverFiles(f, n), RecoverFiles(g, n);
    assert Committed(g);
    forall name
      ensures name in a <==> name in b
      ensures name in a ==> a[name] == b[name]
    {
    }
    assert a == b;
  }
}
