/** Boots after a cut in the copying phase: compact.tmp becomes segment 0, and the index file is still the old one. */
module Stale {
  import opened Bytes
  import opened Records
  import opened Logs
  import opened Disks
  import opened IndexLog
  import opened Compaction
  import opened CopyOrder
  import opened Recovery
  import opened StoreSpec
  import opened StoreSteps
  import opened Boot
  import opened Eviction

  /** The log recovery leaves: the copy `rs` as segment 0, then the old segments from `cut` on. */
  function MixedOf(sw: Sweep, cut: nat, rs: seq<Record>): seq<Loc>
    requires cut <= |sw.segs|
  {
    Located(0, rs) + LogRange(sw.segs, cut, |sw.segs|)
  }

  /** A record that recovery leaves where the old index has it: in a segment from `cut` on, or in segment 0 at the very
      place of its copy. */
  ghost predicate InPlace(l: Loc, cut: nat, rs: seq<Record>) {
    l.seg >= cut || exists j :: 0 <= j < |rs| && l == Loc(0, Offset(rs, j), rs[j])
  }

  /** No other record of `rs` has the key. */
  ghost predicate OnlyCopy(rs: seq<Record>, k: Key, j: nat) {
    forall i :: 0 <= i < |rs| && rs[i].key == k ==> i == j
  }

  /** The copy of a kept record whose segment is gone. */
  lemma CopyOf(sw: Sweep, cut: nat, rs: seq<Record>, k: Key) returns (j: nat)
    requires sw.Sound() && cut <= |sw.segs| && sw.Copied(cut) <= rs <= sw.All()
    requires k in sw.keep && k in Final(sw.Log()) && Final(sw.Log())[k].seg < cut
    ensures j < |rs| && rs[j] == Final(sw.Log())[k].rec && rs[j].key == k && OnlyCopy(rs, k, j)
  {
    hide LogRange, Final, Live, Offset, Addressable;
    var l, n := Final(sw.Log())[k], |sw.segs|;
    FinalIsLast(sw.Log(), k);
    LogRangeSplit(sw.segs, 0, cut, n);
    LogSegs(sw.segs, cut, n);
    assert l in LogRange(sw.segs, 0, cut);
    var live := Live(LogRange(sw.segs, 0, cut), sw.keep);
    LiveMembers(LogRange(sw.segs, 0, cut), sw.keep);
    assert Kept(l, sw.keep);
    j :| 0 <= j < |live| && live[j] == l;
    assert rs[j] == sw.Copied(cut)[j];
    OneRecordPerKey(sw);
    forall i | 0 <= i < |rs| && rs[i].key == k
      ensures i == j
    {
      assert rs[i] == sw.All()[i] && rs[j] == sw.All()[j];
    }
  }

  /** What recovery makes of one kept key. */
  lemma MixedKey(sw: Sweep, cut: nat, rs: seq<Record>, k: Key) returns (m: Loc)
    requires sw.Sound() && cut <= |sw.segs| && sw.Copied(cut) <= rs <= sw.All() && k in sw.keep
    ensures k in Final(sw.Log()) && k in Final(MixedOf(sw, cut, rs)) && m == Final(MixedOf(sw, cut, rs))[k]
    ensures m.rec == Final(sw.Log())[k].rec
    ensures Final(sw.Log())[k].seg >= cut ==> m == Final(sw.Log())[k]
    ensures Final(sw.Log())[k].seg < cut ==>
              exists j :: 0 <= j < |rs| && OnlyCopy(rs, k, j) && m == Loc(0, Offset(rs, j), rs[j])
  {
    hide LogRange, Final, Last, Offset, Addressable;
    var log, n := sw.Log(), |sw.segs|;
    var head, tail, copies := LogRange(sw.segs, 0, cut), LogRange(sw.segs, cut, n), Located(0, rs);
    assert k in IndexOf(log);
    LogRangeSplit(sw.segs, 0, cut, n);
    LogSegs(sw.segs, 0, cut);
    LogSegs(sw.segs, cut, n);
    LastConcat(head, tail, k);
    LastConcat(copies, tail, k);
    FinalIsLast(log, k);
    FinalIsLast(head, k);
    FinalIsLast(tail, k);
    FinalIsLast(copies, k);
    FinalIsLast(MixedOf(sw, cut, rs), k);
    if Final(log)[k].seg < cut {
      var j := CopyOf(sw, cut, rs, k);
      assert copies[j].rec == rs[j];
      LastOfMember(copies, copies[j]);
      var x := Last(copies, k).value;
      var i :| 0 <= i < |copies| && copies[i] == x;
      assert rs[i].key == k;
    }
    m := Final(MixedOf(sw, cut, rs))[k];
  }

  lemma CopyOffset(sw: Sweep, rs: seq<Record>, j: nat)
    requires sw.Sound() && Total(sw.segs) <= MAX_OFFSET && rs <= sw.All() && j < |rs|
    ensures Offset(rs, j) < MAX_OFFSET
  {
    hide SizeOf, Record.Size;
    LiveFits(sw.Log(), sw.keep);
    assert rs[..j] == sw.All()[..j];
    assert sw.All()[..|sw.All()|] == sw.All();
    OffsetGrows(sw.All(), j, |sw.All()|);
    SizeIsPositive(sw.All()[j]);
  }

  lemma SizeIsPositive(r: Record)
    ensures r.Size() > 0
  {
  }

  /** The old entry of a kept key is the one a scan would make exactly when its record is in place. */
  lemma EntryIsRight(sw: Sweep, cut: nat, rs: seq<Record>, k: Key)
    requires sw.Sound() && Total(sw.segs) <= MAX_OFFSET && cut <= |sw.segs|
    requires sw.Copied(cut) <= rs <= sw.All() && k in sw.keep
    ensures k in Final(sw.Log()) && k in IndexOf(MixedOf(sw, cut, rs))
    ensures sw.keep[k] == IndexOf(MixedOf(sw, cut, rs))[k] <==> InPlace(Final(sw.Log())[k], cut, rs)
  {
    hide LogRange, Final, EntryOf, Offset, Sweep.Copied, MixedOf;
    var l := Final(sw.Log())[k];
    var m := MixedKey(sw, cut, rs, k);
    FinalIsLast(sw.Log(), k);
    assert sw.keep[k] == EntryOf(l);
    if l.seg < cut {
      var j :| 0 <= j < |rs| && OnlyCopy(rs, k, j) && m == Loc(0, Offset(rs, j), rs[j]);
      CopyOffset(sw, rs, j);
      assert l.rec.key == k;
      if EntryOf(l) == EntryOf(m) {
        SamePlace(l, m);
        assert l == m;
      }
    }
  }

  /** What a boot finds after such a cut. */
  lemma StaleBoot(sw: Sweep, d: Disk, s: nat, image: Files, ms: seq<Mutation>)
    requires sw.Sound() && CopyShape(sw, d, s) && 0 < s && CrashImage(d, image)
    requires IndexFile in d.files && d.files[IndexFile] == EncodeMutations(ms) && d.Durable(IndexFile)
    ensures CompactTmp in image && Loaded(image, |sw.segs|) == Replay(ms)
    ensures var cut, rs := CutOf(image, s), Scan(image[CompactTmp]);
      && cut <= s <= |sw.segs| && sw.Copied(cut) <= rs <= sw.All()
      && RecoveredLog(image, |sw.segs|) == MixedOf(sw, cut, rs)
  {
    hide Scan, EncodeAll, DecodeJournal, EncodeMutations, Mutations, Replay, Sweep.Copied, Sweep.Sound, LogRange,
         Intact;
    JournalOfImage(d, image, JOURNAL_COMPACTING, s);
    CopyRecovered(image, |sw.segs|, s);
    var cut, rs := RecoveredCopyLog(sw, d, s, image, RecoverFiles(image, |sw.segs|));
    CopiedGrows(sw, cut, s);
    DurableSurvives(d, image, IndexFile);
    IndexFileReads(image[IndexFile], ms);
  }

  /** With deleted sources a boot trusts the old index file.  The entries of kept keys are right exactly when each of
      their records is in place; the old index and the copy show that beforehand. */
  lemma StaleKept(sw: Sweep, d: Disk, s: nat, image: Files, ms: seq<Mutation>)
    requires sw.Sound() && Total(sw.segs) <= MAX_OFFSET && CopyShape(sw, d, s) && 0 < s && CrashImage(d, image)
    requires IndexFile in d.files && d.files[IndexFile] == EncodeMutations(ms) && d.Durable(IndexFile)
    requires Submap(sw.keep, Replay(ms))
    ensures CompactTmp in image
    ensures var loaded, right := Loaded(image, |sw.segs|), IndexOf(RecoveredLog(image, |sw.segs|));
      && sw.keep.Keys <= loaded.Keys && sw.keep.Keys <= right.Keys && sw.keep.Keys <= Final(sw.Log()).Keys
      && ((forall k :: k in sw.keep ==> loaded[k] == right[k])
          <==> forall k :: k in sw.keep ==> InPlace(Final(sw.Log())[k], CutOf(image, s), Scan(image[CompactTmp])))
  {
    hide Loaded, RecoveredLog, CutOf, Scan, IndexOf, Final, Sweep.Sound, CopyShape, CrashImage, InPlace, MixedOf;
    StaleBoot(sw, d, s, image, ms);
    var cut, rs := CutOf(image, s), Scan(image[CompactTmp]);
    forall k | k in sw.keep
      ensures k in Final(sw.Log()) && k in IndexOf(MixedOf(sw, cut, rs))
      ensures sw.keep[k] == IndexOf(MixedOf(sw, cut, rs))[k] <==> InPlace(Final(sw.Log())[k], cut, rs)
    {
      EntryIsRight(sw, cut, rs, k);
    }
  }

  /** With nothing expired or evicted, the boot is right as a whole under exactly that condition. */
  lemma StaleBootIsRight(sw: Sweep, d: Disk, s: nat, image: Files, ms: seq<Mutation>)
    requires sw.Sound() && Total(sw.segs) <= MAX_OFFSET && CopyShape(sw, d, s) && 0 < s && CrashImage(d, image)
    requires IndexFile in d.files && d.files[IndexFile] == EncodeMutations(ms) && d.Durable(IndexFile)
    requires sw.keep == Replay(ms) == IndexOf(sw.Log())
    ensures CompactTmp in image && sw.keep.Keys <= Final(sw.Log()).Keys
    ensures Loaded(image, |sw.segs|) == IndexOf(RecoveredLog(image, |sw.segs|))
       <==> forall k :: k in sw.keep ==> InPlace(Final(sw.Log())[k], CutOf(image, s), Scan(image[CompactTmp]))
  {
    hide Loaded, RecoveredLog, CutOf, Scan, Final, Sweep.Sound, CopyShape, InPlace;
    StaleBoot(sw, d, s, image, ms);
    StaleKept(sw, d, s, image, ms);
    CopyPhaseSafe(sw, d, s);
    NothingLost(sw, d, image);
    ContentsAreView(IndexOf(RecoveredLog(image, |sw.segs|)), RecoveredLog(image, |sw.segs|));
    ContentsAreView(IndexOf(sw.Log()), sw.Log());
  }

  lemma TwoRecords(t: Record, r: Record)
    requires t.IsDelete() && !r.IsDelete()
    ensures LogOf([[t, r], []]) == [Loc(0, 0, t), Loc(0, t.Size(), r)]
    ensures Total([[t, r], []]) == t.Size() + r.Size()
    ensures Final([Loc(0, 0, t), Loc(0, t.Size(), r)]) == map[r.key := Loc(0, t.Size(), r)]
  {
    hide Record.Size, Record.IsDelete;
    var segs, l0, l1 := [[t, r], []], Loc(0, 0, t), Loc(0, t.Size(), r);
    assert [] + [t] == [t] && [t] + [r] == [t, r];
    LocatedAppend(0, [], t);
    LocatedAppend(0, [t], r);
    SizeOfConcat([t], [r]);
    assert SizeOf([]) == 0;
    SizeOfConcat([], [t]);
    OneSize(t);
    OneSize(r);
    assert LogRange(segs, 0, 2) == LogRange(segs, 0, 1) + Located(1, []);
    assert LogRange(segs, 0, 1) == LogRange(segs, 0, 0) + Located(0, [t, r]);
    assert Located(0, [t, r]) == [l0, l1];
    assert Recs([l0, l1]) == [t, r];
    assert [l0, l1][..1] == [l0] && [l0][..0] == [];
    assert Final([]) == map[];
    assert Final([l0]) == map[];
  }

  lemma OneSize(r: Record)
    ensures SizeOf([r]) == r.Size()
  {
    assert SizeOf([]) == 0;
  }

  lemma FirstOffset(r: Record)
    ensures Offset([r], 0) == 0
  {
    assert [r][..0] == [];
  }

  lemma KeptEntry(sw: Sweep, k: Key)
    requires sw.Sound() && k in sw.keep
    ensures k in Final(sw.Log()) && sw.keep[k] == EntryOf(Final(sw.Log())[k])
  {
  }

  lemma CopyIsSegZero(image: Files, n: nat, s: nat)
    requires JournalSays(image, JOURNAL_COMPACTING, s) && 0 < s && CompactTmp in image
    ensures Seg(0) in RecoverFiles(image, n) && RecoverFiles(image, n)[Seg(0)] == image[CompactTmp]
  {
  }

  /** The copy of the only kept record. */
  lemma OneCopy(sw: Sweep, t: Record, r: Record)
    requires sw.Sound() && sw.segs == [[t, r], []] && t.IsDelete() && !r.IsDelete() && sw.keep.Keys == {r.key}
    ensures Final(sw.Log()) == map[r.key := Loc(0, t.Size(), r)]
    ensures sw.Copied(1) == sw.All() == [r]
  {
    hide Sweep.Sound, Live, LogRange, Final, Sweep.Copied, Record.Size, Record.IsDelete, Puts, Offset;
    TwoRecords(t, r);
    CompactedExactly(sw);
    CopiedGrows(sw, 1, 2);
    SameSize(sw.keep, map[r.key := 0]);
    var j := CopyOf(sw, 1, sw.Copied(1), r.key);
    assert sw.Copied(1)[j] == r;
  }

  /** Segment 0 held a tombstone with a record behind it, and has just been copied and deleted: the copy has the record
      in front. */
  lemma MovedForward(sw: Sweep, d: Disk, t: Record, r: Record, ms: seq<Mutation>)
    requires sw.Sound() && Total(sw.segs) <= MAX_OFFSET && sw.segs == [[t, r], []]
    requires t.IsDelete() && !r.IsDelete() && t.key != r.key && sw.keep.Keys == {r.key}
    requires MidwayShape(sw, d, 1)
    requires IndexFile in d.files && d.files[IndexFile] == EncodeMutations(ms) && d.Durable(IndexFile)
    requires Submap(sw.keep, Replay(ms))
    ensures CrashImage(d, d.files) && r.key in Loaded(d.files, 2)
    ensures Contents(RecoveredLog(d.files, 2)) == map[r.key := r]
    ensures Loaded(d.files, 2)[r.key] != IndexOf(RecoveredLog(d.files, 2))[r.key]
    ensures Loaded(d.files, 2)[r.key] == sw.keep[r.key] == EntryOf(Loc(0, t.Size(), r))
    ensures Seg(0) in RecoverFiles(d.files, 2) && RecoverFiles(d.files, 2)[Seg(0)] == EncodeAll([r])
  {
    hide Scan, EncodeAll, Encode, Loaded, RecoveredLog, Sweep.Sound, Sweep.Copied, LogRange, Final, Live, Mutations,
         Replay, EncodeMutations, DecodeJournal, Record.Size, Record.IsDelete, Offset, Total, MixedOf, RecoverFiles,
         Intact, EntryOf;
    var k := r.key;
    OneCopy(sw, t, r);
    FilesAreAnImage(d);
    MidwayIsCopying(sw, d, 1);
    StaleBoot(sw, d, 1, d.files, ms);
    ScanOfCopy(sw, 1);
    EntryIsRight(sw, 1, [r], k);
    SizeIsPositive(t);
    FirstOffset(r);
    CopyPhaseSafe(sw, d, 1);
    CopyIsSegZero(d.files, 2, 1);
    assert Contents(sw.Log()) == map[k := r];
    KeptEntry(sw, k);
  }

  /** So a get looks behind the end of the file when the tombstone was the longer one. */
  lemma BehindTheEnd(t: Record, r: Record)
    requires t.Size() > r.Size() && t.Size() <= MAX_OFFSET - r.Size()
    ensures var e := EntryOf(Loc(0, t.Size(), r));
      e.segment == 0 && e.offset.Get() > |EncodeAll([r])|
  {
    hide EncodeAll;
    SizeOfEncoding([r]);
    OneSize(r);
    Uint24RoundTrip(t.Size());
  }

  /** The record is all a compaction keeps. */
  lemma OnlyKept(ix: Index, pruned: Index, sw: Sweep, t: Record, r: Record, ms: seq<Mutation>, now: nat)
    requires sw == Sweep([[t, r], []], Unexpired(pruned, 0, now)) && sw.Sound() && ix.Keys == {r.key}
    requires PrunedTo(ix, pruned, 0, 0) && Submap(ix, IndexOf(sw.Log())) && Submap(ix, Replay(ms))
    requires t.IsDelete() && !r.IsDelete() && r.ttl == 0
    ensures sw.keep.Keys == {r.key} && Submap(sw.keep, Replay(ms))
  {
    hide Replay, BottomSet, LogRange, Final, IndexOf, Record.IsDelete, Sweep.Sound, Record.Size, Expired, EntryOf,
         Lapsed;
    TwoRecords(t, r);
    var l := Loc(0, t.Size(), r);
    EntryExpires(l, 0, now);
    NeverLapses(r, now);
    OneEntry([Loc(0, 0, t), l], l);
    assert ix[r.key] == EntryOf(l);
  }

  lemma NeverLapses(r: Record, now: nat)
    requires r.ttl == 0
    ensures !Lapsed(r, 0, now)
  {
  }

  lemma OneEntry(log: seq<Loc>, l: Loc)
    requires Final(log) == map[l.rec.key := l]
    ensures IndexOf(log) == map[l.rec.key := EntryOf(l)]
  {
  }

  /** The moment the first segment is gone. */
  lemma FirstCheckpoint(sw: Sweep, history: seq<Disk>, from: nat, start: Files, t: Record, r: Record, ms: seq<Mutation>)
    returns (cut: nat)
    requires from <= |history| && Checkpoints(sw, history[from..], 2, start)
    requires IndexFile in start && start[IndexFile] == EncodeMutations(ms)
    requires sw.Sound() && Total(sw.segs) <= MAX_OFFSET && sw.segs == [[t, r], []]
    requires t.IsDelete() && !r.IsDelete() && t.key != r.key && sw.keep.Keys == {r.key} && Submap(sw.keep, Replay(ms))
    requires t.Size() > r.Size()
    ensures cut < |history|
    ensures var files, k := history[cut].files, r.key;
      && CrashImage(history[cut], files) && Contents(RecoveredLog(files, 2)) == map[k := r]
      && k in Loaded(files, 2) && k in IndexOf(RecoveredLog(files, 2))
      && Loaded(files, 2)[k] != IndexOf(RecoveredLog(files, 2))[k]
      && var f, e := RecoverFiles(files, 2), Loaded(files, 2)[k];
         Seg(e.segment) in f && e.offset.Get() > |f[Seg(e.segment)]|
  {
    hide Sweep.Sound, Total, EncodeMutations, Replay, MidwayShape, Loaded, RecoveredLog, RecoverFiles, CrashImage,
         Contents, Record.IsDelete, Record.Size, EntryOf, EncodeAll, IndexOf;
    assert Passed(sw, history[from..], 1, start);
    var i :| 0 <= i < |history[from..]| && Checkpoint(sw, history[from..][i], 1, start);
    cut := from + i;
    var d := history[cut];
    assert d == history[from..][i];
    assert IndexFile !in Segments(2) + {CompactTmp, Journal};
    assert IndexFile in d.files && d.Durable(IndexFile);
    MovedForward(sw, d, t, r, ms);
    TwoRecords(t, r);
    BehindTheEnd(t, r);
    ContentsAreView(IndexOf(RecoveredLog(d.files, 2)), RecoveredLog(d.files, 2));
  }

  lemma ScanOfCopy(sw: Sweep, s: nat)
    requires sw.Sound() && s <= |sw.segs|
    ensures Scan(EncodeAll(sw.Copied(s))) == sw.Copied(s)
  {
    CopiedStorable(sw, s);
    ScanRoundTrip(sw.Copied(s), []);
    assert EncodeAll(sw.Copied(s)) + [] == EncodeAll(sw.Copied(s));
  }
}
