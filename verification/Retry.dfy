/** What a compaction that is tried again after giving up half way does to the store. */
module Retry {
  import opened Records
  import opened Logs
  import opened Disks
  import opened Compaction
  import opened CopyOrder
  import opened Recovery
  import opened StoreSpec
  import opened StoreSteps

  /** A compaction gave up with segments `0..s-1` deleted: what they kept is in compact.tmp only. */
  ghost predicate GivenUp(sw: Sweep, d: Disk, s: nat) {
    && CopyShape(sw, d, s) && 0 < s < |sw.segs| && Settled(d)
    && (forall i :: 0 <= i < s ==> Seg(i) !in d.files)
    && (forall i :: s <= i < |sw.segs| ==> SegmentIs(d.files, i, sw.segs[i]))
  }

  lemma GaveUp(sw: Sweep, before: Disk, d: Disk, s: nat)
    requires MidwayShape(sw, before, s) && CopyShape(sw, d, s) && SameExcept(d.files, before.files, {CompactTmp})
    requires s < |sw.segs| && Settled(d) && forall i :: s <= i < |sw.segs| ==> SegmentIs(before.files, i, sw.segs[i])
    ensures 0 < s ==> GivenUp(sw, d, s)
  {
    hide EncodeAll, DecodeJournal, SegRecs;
  }

  /** Trying again journals a new start and truncates compact.tmp, whereupon the deleted segments are gone for good:
      a power cut is survived exactly when nothing they held was to be kept. */
  lemma RetrySafeIff(sw: Sweep, d: Disk, s: nat, journaled: Disk)
    requires sw.Sound() && GivenUp(sw, d, s)
    requires Journal in journaled.files && journaled == d.Overwrite(Journal, journaled.files[Journal])
    requires JournalSays(journaled.files, JOURNAL_COMPACTING, 0)
    ensures CrashSafe(sw, journaled.Truncate(CompactTmp)) <==> forall k :: k in sw.keep ==> Final(sw.Log())[k].seg >= s
  {
    hide Sweep.Sound, Contents, LogRange, RecoveredLog, DecodeJournal, EncodeAll, Scan;
    var e, tail := journaled.Truncate(CompactTmp), LogRange(sw.segs, s, |sw.segs|);
    forall image | CrashImage(e, image)
      ensures RecoveredLog(image, |sw.segs|) == tail
    {
      RetryRecovers(sw, d, s, journaled, image);
    }
    FilesAreAnImage(e);
    TailPreserves(sw, s);
  }

  /** Only the segments that were not deleted come back. */
  lemma RetryRecovers(sw: Sweep, d: Disk, s: nat, journaled: Disk, image: Files)
    requires GivenUp(sw, d, s) && CrashImage(journaled.Truncate(CompactTmp), image)
    requires Journal in journaled.files && journaled == d.Overwrite(Journal, journaled.files[Journal])
    requires JournalSays(journaled.files, JOURNAL_COMPACTING, 0)
    ensures RecoveredLog(image, |sw.segs|) == LogRange(sw.segs, s, |sw.segs|)
  {
    hide Scan, DecodeJournal, EncodeAll, SegmentIs, LogRange;
    var n, e := |sw.segs|, journaled.Truncate(CompactTmp);
    JournalOfImage(e, image, JOURNAL_COMPACTING, 0);
    var rec := RecoverFiles(image, n);
    assert rec == image - {CompactTmp, Journal};
    forall i | 0 <= i < n
      ensures SegRecs(rec, i) == if i < s then [] else sw.segs[i]
    {
      if s <= i {
        assert Intact(sw, d, i);
        assert Intact(sw, e, i);
        IntactSurvives(sw, e, image, rec, i);
      }
    }
    LogOfTail(SegsOf(rec, n), sw.segs, s);
  }

  lemma LogOfTail(a: Segs, segs: Segs, s: nat)
    requires s <= |a| == |segs| && forall i :: 0 <= i < |a| ==> a[i] == if i < s then [] else segs[i]
    ensures LogOf(a) == LogRange(segs, s, |segs|)
  {
    hide Located;
    LogRangeSplit(a, 0, s, |a|);
    LogRangeEmpty(a, 0, s);
    LogRangeSame(a, segs, s, |a|);
  }

  /** The later segments alone keep everything exactly when every kept record lies in them. */
  lemma TailPreserves(sw: Sweep, s: nat)
    requires sw.Sound() && s <= |sw.segs|
    ensures sw.Preserved(Contents(LogRange(sw.segs, s, |sw.segs|)))
       <==> forall k :: k in sw.keep ==> Final(sw.Log())[k].seg >= s
  {
    hide LogRange, Final, Last;
    var log, tail := sw.Log(), LogRange(sw.segs, s, |sw.segs|);
    forall k
      ensures k in Final(tail) ==> k in Final(log) && Final(log)[k] == Final(tail)[k] && Final(log)[k].seg >= s
      ensures k in Final(log) && Final(log)[k].seg >= s ==> k in Final(tail)
    {
      TailKey(sw.segs, s, k);
    }
  }

  lemma TailKey(segs: Segs, s: nat, k: Key)
    requires s <= |segs|
    ensures var log, tail := LogOf(segs), LogRange(segs, s, |segs|);
      && (k in Final(tail) ==> k in Final(log) && Final(log)[k] == Final(tail)[k] && Final(log)[k].seg >= s)
      && (k in Final(log) && Final(log)[k].seg >= s ==> k in Final(tail))
  {
    hide LogRange, Final, Last;
    var n := |segs|;
    var head, tail := LogRange(segs, 0, s), LogRange(segs, s, n);
    LogRangeSplit(segs, 0, s, n);
    LastConcat(head, tail, k);
    FinalIsLast(LogOf(segs), k);
    FinalIsLast(tail, k);
    FinalIsLast(head, k);
    LogSegs(segs, 0, s);
    LogSegs(segs, s, n);
  }

  /** What is left of the segments. */
  function Remnants(segs: Segs, s: nat): (r: Segs)
    ensures |r| == |segs|
  {
    seq(|segs|, i requires 0 <= i < |segs| => if i < s then [] else segs[i])
  }

  /** The records of the kept keys that lie in a segment from `s` on. */
  function Surviving(kept: Index, segs: Segs, s: nat): map<Key, Record> {
    map k | k in kept && k in Final(LogOf(segs)) && Final(LogOf(segs))[k].seg >= s :: Final(LogOf(segs))[k].rec
  }

  /** The entries found in the remnants are those whose record is there. */
  lemma FoundInRemnants(kept: Index, segs: Segs, s: nat)
    requires s <= |segs| && Submap(kept, IndexOf(LogOf(segs)))
    ensures var found := Found(kept, Remnants(segs, s));
      && (forall k :: k in found <==> k in Surviving(kept, segs, s))
      && ViewOf(found, LogOf(Remnants(segs, s))) == Surviving(kept, segs, s)
  {
    hide LogRange, Final, EntryOf;
    LogOfTail(Remnants(segs, s), segs, s);
    forall k
      ensures k in Final(LogRange(segs, s, |segs|)) ==>
                && k in Final(LogOf(segs)) && Final(LogOf(segs))[k] == Final(LogRange(segs, s, |segs|))[k]
                && Final(LogOf(segs))[k].seg >= s
      ensures k in Final(LogOf(segs)) && Final(LogOf(segs))[k].seg >= s ==> k in Final(LogRange(segs, s, |segs|))
    {
      TailKey(segs, s, k);
    }
  }

  /** After a compaction gave up, the remnants are whole, and the old index names nothing else in them. */
  lemma RemnantsAreWhole(sw: Sweep, d: Disk, s: nat, ix: Index)
    requires GivenUp(sw, d, s) && sw.Sound() && 2 <= |sw.segs| <= MAX_SEGMENTS && Total(sw.segs) <= MAX_OFFSET
    requires Submap(ix, IndexOf(sw.Log()))
    ensures s <= |sw.segs|
    ensures Whole(|sw.segs|, d, Remnants(sw.segs, s)) && Findable(ix, Remnants(sw.segs, s), d.files)
  {
    hide LogRange, Final, Total, PlacesDiffer, EntryOf, CopyShape, Addressable, EncodeAll, Found;
    var segs, rest, now := sw.segs, Remnants(sw.segs, s), Sweep(sw.segs, ix);
    assert now.Sound();
    RemnantsFit(segs, s);
    KeptPlacesDiffer(now);
    FoundInRemnants(ix, segs, s);
    forall i | 0 <= i < |segs|
      ensures SegmentIs(d.files, i, rest[i])
    {
    }
    forall k | k in ix && k !in Found(ix, rest)
      ensures Seg(ix[k].segment) !in d.files
    {
      var l := KeptPoints(now, k);
      assert k in Final(LogOf(segs)) && k !in Surviving(ix, segs, s);
      assert l.seg < s;
    }
  }

  lemma RemnantsFit(segs: Segs, s: nat)
    requires s <= |segs|
    ensures Total(Remnants(segs, s)) <= Total(segs)
  {
    hide LogRange, SizeOf;
    LogOfTail(Remnants(segs, s), segs, s);
    LogRangeSplit(segs, 0, s, |segs|);
    var head, tail := LogRange(segs, 0, s), LogRange(segs, s, |segs|);
    RecsConcat(head, tail);
    SizeOfConcat(Recs(head), Recs(tail));
  }
}
