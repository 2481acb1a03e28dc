/** The log-structured store: an append-only segmented log, an in-memory index, and an index file. */
module FileStores {
  import opened Bytes
  import opened Records
  import opened Logs
  import opened Disks
  import opened IndexLog
  import opened Checksum
  import opened Compaction
  import opened CopyOrder
  import opened Recovery
  import opened StoreSpec
  import opened StoreSteps
  import opened Survival
  import opened Boot
  import opened Retry
  import opened Stale
  import opened Eviction

  const BUFFER_SIZE: nat := 512
  const COMPACT_THRESHOLD: nat := 25

  /** Where the active file handle writes: nowhere, a segment, or a segment deleted since it was opened. */
  datatype Handle = Closed | At(seg: nat) | Stale

  class FileStore {
    const segmentSize: nat
    const segmentCount: nat
    /** The filesystem always has room for compact.tmp. */
    const reliable: bool

    var disk: Disk
    var index: Index
    var active: Handle
    var indexOpen: bool
    var currentSegment: nat
    var currentOffset: nat
    var writeBuf: array<Byte>
    var writeBufPos: nat
    var deadSinceCompact: nat
    var inCooldown: bool
    var policyTtl: Uint32
    var maxRecs: nat

    /** Every state the disk has been in. */
    ghost var history: seq<Disk>
    /** The records of each segment. */
    ghost var segs: Segs
    /** The entries of the index file. */
    ghost var mutations: seq<Mutation>
    /** Dead records `deadSinceCompact` does not count: those of entries dropped because their time was up, and
        those from before this session. */
    ghost var lapsed: nat

    /** A store over whatever the disk holds; nothing is read before it is opened. */
    constructor (segmentSize: nat, segmentCount: nat, reliable: bool, disk: Disk)
      ensures this.segmentSize == segmentSize && this.segmentCount == segmentCount && this.reliable == reliable
      ensures this.disk == disk && history == [disk] && segs == SegsOf(disk.files, segmentCount)
      ensures IndexFile in disk.files ==> mutations == Mutations(disk.files[IndexFile])
      ensures index == map[] && active == Closed && !indexOpen && deadSinceCompact == 0 && lapsed == 0
      ensures fresh(writeBuf) && writeBuf.Length == BUFFER_SIZE && writeBufPos == 0 && policyTtl == 0 && maxRecs == 0
    {
      this.segmentSize, this.segmentCount, this.reliable := segmentSize, segmentCount, reliable;
      this.disk, history := disk, [disk];
      segs := SegsOf(disk.files, segmentCount);
      mutations := if IndexFile in disk.files then Mutations(disk.files[IndexFile]) else [];
      index, active, indexOpen := map[], Closed, false;
      currentSegment, currentOffset, writeBufPos, deadSinceCompact, lapsed := 0, 0, 0, 0, 0;
      inCooldown, policyTtl, maxRecs := false, 0, 0;
      writeBuf := new Byte[BUFFER_SIZE];
    }

    /** One file-system call. */
    method Step(d: Disk)
      modifies `disk, `history
      ensures disk == d && history == old(history) + [d]
    {
      disk := d;
      history := history + [d];
    }

    // ---------------------------------------------------------------- buffered writes

    ghost predicate Buffering()
      reads this
    {
      && writeBuf.Length == BUFFER_SIZE && writeBufPos < BUFFER_SIZE
      && active.At? && Seg(active.seg) in disk.files
      && disk.Synced(Seg(active.seg)) <= |disk.files[Seg(active.seg)]|
    }

    /** What the active file holds once the buffer is flushed. */
    ghost function Stream(): Bytes
      reads this, writeBuf
      requires Buffering()
    {
      disk.files[Seg(active.seg)] + writeBuf[..writeBufPos]
    }

    /** The states since `from` have only extended the active file of `before` towards `full`. */
    ghost predicate Growing(before: Disk, from: nat, full: Bytes)
      reads this
    {
      && active.At? && from <= |history|
      && Extends(before, disk, Seg(active.seg), full)
      && forall i :: from <= i < |history| ==> Extends(before, history[i], Seg(active.seg), full)
    }

    method FlushBuffer(ghost before: Disk, ghost from: nat, ghost full: Bytes) returns (ok: bool)
      requires writeBuf.Length == BUFFER_SIZE && writeBufPos <= BUFFER_SIZE
      requires active.At? && Seg(active.seg) in disk.files && writeBufPos > 0 ==>
                 && Growing(before, from, full)
                 && disk.files[Seg(active.seg)] + writeBuf[..writeBufPos] <= full
                 && disk.Synced(Seg(active.seg)) <= |disk.files[Seg(active.seg)]|
      modifies `disk, `history, `writeBufPos
      ensures writeBufPos == 0 && old(history) <= history
      ensures old(writeBufPos) == 0 ==> ok && disk == old(disk) && history == old(history)
      ensures active.Closed? && old(writeBufPos) > 0 ==> !ok && disk == old(disk) && history == old(history)
      ensures active.At? && Seg(active.seg) in old(disk.files) && old(writeBufPos) > 0 ==>
                var name := Seg(active.seg);
                && ok && Growing(before, from, full) && disk.Durable(name)
                && disk.files == old(disk.files)[name := old(disk.files[name] + writeBuf[..writeBufPos])]
    {
      if writeBufPos == 0 {
        return true;
      }
      if active.Closed? {
        writeBufPos := 0;
        return false;
      }
      if active.At? && Seg(active.seg) in disk.files {
        Step(disk.Append(Seg(active.seg), writeBuf[..writeBufPos]));
        Step(disk.Flush(Seg(active.seg)));
      }
      writeBufPos := 0;
      return true;
    }

    method FillBuffer(data: Bytes)
      requires writeBuf.Length == BUFFER_SIZE && writeBufPos + |data| <= BUFFER_SIZE
      modifies `writeBufPos, writeBuf
      ensures writeBufPos == old(writeBufPos) + |data|
      ensures writeBuf[..writeBufPos] == old(writeBuf[..writeBufPos]) + data
    {
      forall k | 0 <= k < |data| {
        writeBuf[writeBufPos + k] := data[k];
      }
      writeBufPos := writeBufPos + |data|;
    }

    /** However the data is split over buffer flushes, the active file gets exactly the data. */
    method AppendBuffer(data: Bytes, ghost before: Disk, ghost from: nat, ghost full: Bytes)
      requires Buffering() && Growing(before, from, full) && Stream() + data <= full
      modifies `disk, `history, `writeBufPos, writeBuf
      ensures Buffering() && Growing(before, from, full) && Stream() == old(Stream()) + data
      ensures SameExcept(disk.files, old(disk.files), {Seg(active.seg)})
      ensures old(disk.Durable(Seg(active.seg))) ==> disk.Durable(Seg(active.seg))
      ensures old(history) <= history
    {
      ghost var name := Seg(active.seg);
      var i := 0;
      while i < |data|
        invariant i <= |data|
        invariant Buffering() && Growing(before, from, full) && Stream() == old(Stream()) + data[..i]
        invariant SameExcept(disk.files, old(disk.files), {name})
        invariant old(disk.Durable(name)) ==> disk.Durable(name)
        invariant old(history) <= history
      {
        var space := BUFFER_SIZE - writeBufPos;
        var n := if |data| - i < space then |data| - i else space;
        ghost var had, file := writeBuf[..writeBufPos], disk.files[name];
        assert file + had == old(Stream()) + data[..i];
        FillBuffer(data[i..i + n]);
        AppendChunk(file, had, data, i, n, old(Stream()), full);
        i := i + n;
        if writeBufPos == BUFFER_SIZE {
          var _ := FlushBuffer(before, from, full);
        }
      }
    }

    // ---------------------------------------------------------------- the index and its file

    method PruneIndex() returns (evicted: nat)
      modifies `index, `deadSinceCompact
      ensures PrunedTo(old(index), index, maxRecs, policyTtl)
      ensures policyTtl < WRAPPING_TTL ==> forall r, e :: r in index && e in old(index) && e !in index ==>
                !IntendedBefore(old(index)[r], old(index)[e], policyTtl)
      ensures evicted == |old(index)| - |index| && deadSinceCompact == old(deadSinceCompact) + evicted
    {
      if maxRecs == 0 || |index| <= maxRecs {
        return 0;
      }
      var toEvict := |index| - maxRecs;
      if toEvict == 1 {
        var k := FirstToEvict(index, policyTtl);
        BottomSetStep(index, index, k, policyTtl);
        RemoveOne(index, k);
        index := index - {k};
      } else {
        index := EvictFirst(index, toEvict, policyTtl);
      }
      if policyTtl < WRAPPING_TTL {
        BottomIsIntended(old(index), index, policyTtl);
      }
      deadSinceCompact := deadSinceCompact + toEvict;
      return toEvict;
    }

    method PersistIndexEntry(m: Mutation) returns (ok: bool)
      requires indexOpen ==> IndexFile in disk.files
      requires IndexFile in disk.files ==> disk.files[IndexFile] == EncodeMutations(mutations)
      requires IndexFile in disk.files ==> disk.Synced(IndexFile) <= |disk.files[IndexFile]|
      modifies `disk, `history, `mutations
      ensures ok == indexOpen
      ensures ok ==> mutations == old(mutations) + [m]
                     && Extends(old(disk), disk, IndexFile, EncodeMutations(mutations))
                     && disk.files[IndexFile] == EncodeMutations(mutations) && disk.Durable(IndexFile)
                     && disk.Synced(IndexFile) <= |disk.files[IndexFile]|
                     && old(history) <= history
      ensures ok ==> forall i :: |old(history)| <= i < |history| ==>
                Extends(old(disk), history[i], IndexFile, EncodeMutations(mutations))
      ensures !ok ==> disk == old(disk) && history == old(history) && mutations == old(mutations)
    {
      if !indexOpen {
        return false;
      }
      EncodeMutationsConcat(mutations, [m]);
      EncodeMutationsOne(m);
      mutations := mutations + [m];
      Step(disk.Append(IndexFile, EncodeMutation(m)));
      Step(disk.Flush(IndexFile));
      return true;
    }

    /** Writes the whole index, in whatever order the map yields its entries. */
    method WriteIndexBulk()
      requires IndexFile !in disk.files
      modifies `disk, `history, `mutations
      ensures Replay(mutations) == index
      ensures IndexFile in disk.files && disk.files == old(disk.files)[IndexFile := EncodeMutations(mutations)]
      ensures disk.Durable(IndexFile) && disk.Synced(IndexFile) <= |disk.files[IndexFile]|
      ensures forall other :: other != IndexFile ==> disk.Synced(other) == old(disk).Synced(other)
      ensures old(history) < history && disk == history[|history| - 1]
      ensures forall i :: |old(history)| <= i < |history| ==> SameBut(old(disk), history[i], IndexFile)
      ensures forall i :: |old(history)| <= i < |history| ==> Rewriting(history[i], index, disk.files[IndexFile])
    {
      hide EncodeMutation, EncodeMutations, Replay, Writing, SameBut, Rewriting, Bulk;
      ghost var before := disk;
      WritingStarts(before);
      Step(disk.Touch(IndexFile));
      mutations := [];
      assert Replay([]) == map[] by { ReplayNothing(); }
      BulkNothing();
      var todo := index.Keys;
      while todo != {}
        invariant todo <= index.Keys
        invariant Replay(mutations) == map k | k in index && k !in todo :: index[k]
        invariant Writing(before, disk, mutations)
        invariant Bulk(mutations) && forall i :: 0 <= i < |mutations| ==> mutations[i].key !in todo
        invariant old(history) <= history
        invariant forall i :: |old(history)| <= i < |history| ==> SameBut(before, history[i], IndexFile)
        invariant forall i :: |old(history)| <= i < |history| && IndexFile in history[i].files ==>
          history[i].files[IndexFile] <= EncodeMutations(mutations)
        decreases todo
      {
        var k :| k in todo;
        var m := BulkMutation(k, index[k]);
        BulkStep(index, todo, k, mutations);
        WritingStep(before, disk, mutations, m);
        BulkMore(mutations, m);
        todo := todo - {k};
        mutations := mutations + [m];
        Step(disk.Append(IndexFile, EncodeMutation(m)));
      }
      WritingEnds(before, disk, mutations);
      Step(disk.Flush(IndexFile));
      SameSynced(before, disk);
      AllRewriting(history, |old(history)|, mutations);
    }

    /** Replays the index file over the index; a torn last entry ends the replay. */
    method LoadIndex() returns (ok: bool)
      modifies `index, `mutations
      ensures ok <==> IndexFile in disk.files
      ensures !ok ==> index == old(index) && mutations == old(mutations)
      ensures ok ==> mutations == Mutations(disk.files[IndexFile]) && index == ReplayOn(old(index), mutations)
    {
      hide Mutations, ParseMutation;
      if IndexFile !in disk.files {
        return false;
      }
      var f := disk.files[IndexFile];
      var off := 0;
      mutations := [];
      assert f[off..] == f;
      while true
        invariant off <= |f|
        invariant Mutations(f) == mutations + Mutations(f[off..])
        invariant index == ReplayOn(old(index), mutations)
        decreases |f| - off
      {
        MutationsStep(f, off, mutations);
        var p := ParseMutation(f[off..]);
        if p.None? {
          break;
        }
        var m := p.value;
        ReplayOnAppend(old(index), mutations, m);
        if m.segment == DELETED {
          index := index - {m.key};
        } else {
          index := Insert(index, m.key, m.segment, m.offset, m.ts, m.ttl, m.priority);
        }
        mutations := mutations + [m];
        off := off + MUTATION_SIZE + |m.key|;
      }
      return true;
    }

    // ---------------------------------------------------------------- scanning segments

    /** Walks one segment, putting and removing index entries record by record, until the scan stops. */
    method ReplaySegment(seg: nat, f: Bytes, ghost log: seq<Loc>)
      requires index == IndexOf(log)
      modifies `index
      ensures index == IndexOf(log + Located(seg, Scan(f)))
    {
      hide Scan, Parse;
      var off := 0;
      ghost var done: seq<Record> := [];
      assert log + Located(seg, done) == log;
      while true
        invariant off <= |f| && off == SizeOf(done)
        invariant Scan(f) == done + Scan(f[off..])
        invariant index == IndexOf(log + Located(seg, done))
        decreases |f| - off
      {
        ScanStep(f, off, done);
        var p := Parse(f[off..]);
        if p.None? {
          break;
        }
        var r := p.value;
        IndexRecord(log, seg, done, r);
        if r.IsDelete() {
          index := index - {r.key};
        } else {
          index := Insert(index, r.key, seg, off, r.ts, r.ttl, r.priority);
        }
        done := done + [r];
        off := off + r.Size();
      }
    }

    method OpenIndexForAppend()
      modifies `disk, `history, `indexOpen
      ensures indexOpen && disk == old(disk).Touch(IndexFile) && history == old(history) + [disk]
    {
      Step(disk.Touch(IndexFile));
      indexOpen := true;
    }

    /** Opens a segment for appending; missing segments start empty. */
    method OpenSegment(id: nat)
      modifies `disk, `history, `active, `currentSegment, `currentOffset
      ensures disk == old(disk).Touch(Seg(id)) && history == old(history) + [disk]
      ensures active == At(id) && currentSegment == id && currentOffset == |disk.files[Seg(id)]|
      ensures old(Consistent()) && id < segmentCount ==>
                Consistent() && id < |segs| && currentOffset == SizeOf(segs[id])
    {
      hide Agree, Counted, SizeOf;
      if Consistent() && id < segmentCount {
        SegmentsAgree(segmentCount, disk, segs, mutations);
        TouchAgrees(segmentCount, disk, segs, mutations, id);
      }
      Step(disk.Touch(Seg(id)));
      active := At(id);
      currentSegment := id;
      currentOffset := |disk.files[Seg(id)]|;
    }

    method WriteJournal(state: Uint32, nextSeg: nat, size: nat)
      requires nextSeg < 0x1_0000_0000
      modifies `disk, `history
      ensures Journal in disk.files && disk == old(disk).Overwrite(Journal, disk.files[Journal])
      ensures JournalSays(disk.files, state, nextSeg)
      ensures history == old(history) + [disk]
    {
      var j := JournalRecord(JOURNAL_MAGIC, state, nextSeg, Wrap32(size));
      JournalRoundTrip(j);
      Step(disk.Overwrite(Journal, EncodeJournal(j)));
    }

    // ---------------------------------------------------------------- compaction

    /** One pass over the index for the live offsets of a segment. */
    method CollectOffsets(s: nat, now: nat, ghost keep: Index) returns (offsets: seq<nat>)
      requires keep == Unexpired(index, policyTtl, now) && PlacesDiffer(keep)
      ensures Collected(keep, {}, s, offsets)
      ensures forall o :: o in offsets <==> exists k :: k in index && PointsAt(index[k], s, o)
                                              && (var e := index[k];
                                                  var t := if e.ttl.Get() > 0 then e.ttl.Get() else policyTtl;
                                                  t == 0 || now < e.ts + t)
    {
      offsets := [];
      var todo := index.Keys;
      while todo != {}
        invariant todo <= index.Keys
        invariant Collected(keep, todo, s, offsets)
        decreases todo
      {
        var k :| k in todo;
        todo := todo - {k};
        var e := index[k];
        if e.segment == s && !Expired(e, policyTtl, now) {
          CollectTake(keep, todo + {k}, k, s, offsets);
          offsets := offsets + [e.offset.Get()];
        } else {
          CollectSkip(keep, todo + {k}, k, s, offsets);
        }
        assert todo + {k} - {k} == todo;
      }
      CollectedInTime(index, s, offsets, policyTtl, now);
    }

    /** Writes to compact.tmp the piece of `all` at `at`, or as much of it as `left` allows.  `done` bytes of `all`
        are already there beyond the disk `base`; a piece is only short when no room is left for the next. */
    method WriteTmp(data: Bytes, left: nat, ghost was: Bytes, ghost all: Bytes, ghost done: nat, ghost at: nat,
                    ghost base: Disk, ghost sw: Sweep, ghost s: nat) returns (n: nat)
      requires Copying(sw, disk, s) && was + all <= EncodeAll(sw.Copied(s + 1))
      requires done <= at <= |all| && at + |data| <= |all| && data == all[at..at + |data|]
      requires left > 0 ==> done == at
      requires TmpHas(base, disk, was, all, done)
      modifies `disk, `history
      ensures n == if |data| <= left then |data| else left
      ensures done + n <= |all| && TmpHas(base, disk, was, all, done + n)
      ensures history == old(history) + [disk]
      ensures Copying(sw, disk, s) && CrashSafe(sw, disk)
    {
      n := if |data| <= left then |data| else left;
      TmpPiece(was, all, done, n, data, EncodeAll(sw.Copied(s + 1)));
      CopyShapeAppend(sw, disk, s, data[..n]);
      Step(disk.Append(CompactTmp, data[..n]));
      CopyPhaseSafe(sw, disk, s);
    }

    /** Copies one record; a device that runs out of room may cut it at any byte. */
    method CopyRecord(raw: Raw, ghost r: Record, ghost sw: Sweep, ghost s: nat) returns (ok: bool)
      requires Copying(sw, disk, s) && CompactTmp in disk.files && raw == Raw(Header(r), r.key, r.value)
      requires disk.files[CompactTmp] + Encode(r) <= EncodeAll(sw.Copied(s + 1))
      modifies `disk, `history
      ensures Copying(sw, disk, s) && CompactTmp in disk.files
      ensures ok ==> disk.files[CompactTmp] == old(disk.files[CompactTmp]) + Encode(r)
      ensures reliable ==> ok
      ensures SameExcept(disk.files, old(disk.files), {CompactTmp}) && disk.synced == old(disk.synced)
      ensures old(history) <= history
      ensures forall i :: |old(history)| <= i < |history| ==> CrashSafe(sw, history[i])
    {
      hide EncodeAll, CrashSafe, Copying, TmpHas, Encode, Header, SameExcept, Sweep.Copied, Le;
      ghost var was, all, base := disk.files[CompactTmp], Encode(r), disk;
      RecordPieces(r);
      var expected := HEADER_SIZE + |raw.key| + |raw.value| + COMMIT_SIZE;
      var room: nat := *;
      if reliable {
        room := expected;
      }
      TmpStarts(base, all);
      var written := WriteTmp(raw.header, room, was, all, 0, 0, base, sw, s);
      var n := WriteTmp(raw.key, room - written, was, all, written, HEADER_SIZE, base, sw, s);
      written := written + n;
      n := CopyTail(raw.value, room - written, was, all, written, HEADER_SIZE + |raw.key|, base, sw, s);
      ok := written + n == expected;
      TmpEnds(base, disk, was, all, written + n);
    }

    /** The value, when there is one, and the commit marker. */
    method CopyTail(value: Bytes, left: nat, ghost was: Bytes, ghost all: Bytes, ghost done: nat, ghost at: nat,
                    ghost base: Disk, ghost sw: Sweep, ghost s: nat) returns (n: nat)
      requires Copying(sw, disk, s) && was + all <= EncodeAll(sw.Copied(s + 1))
      requires done <= at && at + |value| + COMMIT_SIZE == |all|
      requires value == all[at..at + |value|] && all[at + |value|..] == Le(MAGIC_COMMIT, 4)
      requires left > 0 ==> done == at
      requires TmpHas(base, disk, was, all, done)
      modifies `disk, `history
      ensures n == if |value| + COMMIT_SIZE <= left then |value| + COMMIT_SIZE else left
      ensures done + n <= |all| && TmpHas(base, disk, was, all, done + n)
      ensures old(history) <= history
      ensures forall i :: |old(history)| <= i < |history| ==> CrashSafe(sw, history[i])
      ensures Copying(sw, disk, s)
    {
      hide EncodeAll, CrashSafe, Copying, TmpHas, Sweep.Copied;
      n := 0;
      if |value| > 0 {
        n := WriteTmp(value, left, was, all, done, at, base, sw, s);
      }
      var m := WriteTmp(Le(MAGIC_COMMIT, 4), left - n, was, all, done + n, at + |value|, base, sw, s);
      n := n + m;
    }

    /** Copies what segment `s` keeps to compact.tmp, in file order. */
    method CopyLive(s: nat, now: nat, ghost sw: Sweep) returns (ok: bool)
      requires sw.Sound() && Selects(Unexpired(index, policyTtl, now), sw, disk.files)
      requires s < |sw.segs| && MidwayShape(sw, disk, s) && SegmentIs(disk.files, s, sw.segs[s])
      modifies `disk, `history
      ensures CopyShape(sw, disk, s) && CompactTmp in disk.files
      ensures ok ==> disk.files[CompactTmp] == EncodeAll(sw.Copied(s + 1))
      ensures reliable ==> ok
      ensures SameExcept(disk.files, old(disk.files), {CompactTmp}) && disk.synced == old(disk.synced)
      ensures old(history) <= history
      ensures forall i :: |old(history)| <= i < |history| ==> CrashSafe(sw, history[i])
    {
      MidwayIsCopying(sw, disk, s);
      ghost var kept := Unexpired(index, policyTtl, now);
      var collected := CollectOffsets(s, now, kept);
      var offsets := SortOffsets(collected);
      PartialEnds(sw, s);
      if Seg(s) in disk.files {
        SelectedHere(kept, sw, disk.files, s, collected);
        CollectedAreLive(sw, s, offsets);
      } else {
        NothingLive(sw, s);
      }
      ok := true;
      if offsets != [] && Seg(s) in disk.files {
        ok := CopyOffsets(offsets, disk.files[Seg(s)], s, sw);
      }
    }

    method CopyOffsets(offsets: seq<nat>, src: Bytes, s: nat, ghost sw: Sweep) returns (ok: bool)
      requires Copying(sw, disk, s) && CompactTmp in disk.files
      requires offsets == Offs(LiveIn(sw, s)) && src == EncodeAll(sw.segs[s])
      requires disk.files[CompactTmp] == EncodeAll(Partial(sw, s, 0))
      modifies `disk, `history
      ensures Copying(sw, disk, s) && CompactTmp in disk.files
      ensures ok ==> disk.files[CompactTmp] == EncodeAll(Partial(sw, s, |offsets|))
      ensures reliable ==> ok
      ensures SameExcept(disk.files, old(disk.files), {CompactTmp}) && disk.synced == old(disk.synced)
      ensures old(history) <= history
      ensures forall i :: |old(history)| <= i < |history| ==> CrashSafe(sw, history[i])
    {
      hide CopyShape, CrashSafe, EncodeAll, Partial, ReadRaw, Encode, Header, Sweep.Sound, LiveIn;
      var i := 0;
      ok := true;
      while i < |offsets|
        invariant i <= |offsets|
        invariant Copying(sw, disk, s) && CompactTmp in disk.files
        invariant disk.files[CompactTmp] == EncodeAll(Partial(sw, s, i))
        invariant SameExcept(disk.files, old(disk.files), {CompactTmp}) && disk.synced == old(disk.synced)
        invariant old(history) <= history
        invariant forall j :: |old(history)| <= j < |history| ==> CrashSafe(sw, history[j])
      {
        ReadLive(sw, s, i, src);
        PartialStep(sw, s, i);
        var off := offsets[i];
        var raw := if off <= |src| then ReadRaw(src[off..]) else None;
        if raw.Some? {
          ok := CopyRecord(raw.value, LiveIn(sw, s)[i].rec, sw, s);
          if !ok {
            return;
          }
        }
        i := i + 1;
      }
    }

    /** Copies one segment, journals it, and only then deletes it. */
    method CompactSegment(s: nat, now: nat, ghost sw: Sweep) returns (ok: bool)
      requires sw.Sound() && Selects(Unexpired(index, policyTtl, now), sw, disk.files)
      requires s < |sw.segs| && MidwayShape(sw, disk, s) && SegmentIs(disk.files, s, sw.segs[s]) && Settled(disk)
      modifies `disk, `history
      ensures ok ==> MidwayShape(sw, disk, s + 1) && Seg(s) !in disk.files
      ensures ok ==> SameExcept(disk.files, old(disk.files), {CompactTmp, Journal, Seg(s)})
      ensures !ok ==> CopyShape(sw, disk, s) && SameExcept(disk.files, old(disk.files), {CompactTmp})
      ensures Settled(disk) && (ok ==> old(history) < history && disk == history[|history| - 1])
      ensures reliable ==> ok
      ensures old(history) <= history
      ensures forall i :: |old(history)| <= i < |history| ==> CrashSafe(sw, history[i])
    {
      hide CrashSafe, CopyShape, EncodeAll, Sweep.Copied, Intact, JournalSays, Unexpired, Selects, SegmentIs, LogOf,
           SegRecs, Record.Size;
      ok := CopyLive(s, now, sw);
      if !ok {
        return;
      }
      FlushShape(sw, disk, s);
      Step(disk.Flush(CompactTmp));
      CopyPhaseSafe(sw, disk, s);
      ghost var flushed := disk;
      WriteJournal(JOURNAL_COMPACTING, s + 1, |disk.files[CompactTmp]|);
      JournaledShape(sw, flushed, s, disk);
      CopyPhaseSafe(sw, disk, s + 1);
      DeletedShape(sw, disk, s);
      Step(disk.Remove(Seg(s)));
      MidwayIsCopying(sw, disk, s + 1);
      CopyPhaseSafe(sw, disk, s + 1);
    }

    /** Removes every segment file, whether it exists or not. */
    method RemoveSegments()
      modifies `disk, `history, `active
      ensures active == if old(active).At? then Stale else old(active)
      ensures |history| == |old(history)| + segmentCount && disk == WithoutFirst(old(disk), segmentCount)
      ensures forall i :: |old(history)| <= i < |history| ==>
                history[i] == WithoutFirst(old(disk), i - |old(history)| + 1)
      ensures SameExcept(disk.files, old(disk.files), Segments(segmentCount))
      ensures forall i :: 0 <= i < segmentCount ==> Seg(i) !in disk.files
      ensures forall name :: name !in Segments(segmentCount) ==> disk.Synced(name) == old(disk).Synced(name)
      ensures old(history) <= history
      ensures forall i :: |old(history)| <= i < |history| ==> SegsGone(old(disk), history[i], segmentCount)
    {
      hide SegsGone, WithoutFirst;
      ghost var before, from := disk, |history|;
      FirstGone(before, 0);
      for i := 0 to segmentCount
        invariant disk == WithoutFirst(before, i) && |history| == from + i && active == old(active)
        invariant old(history) <= history
        invariant forall j :: from <= j < |history| ==> history[j] == WithoutFirst(before, j - from + 1)
      {
        FirstGone(before, i);
        Step(disk.Remove(Seg(i)));
      }
      if active.At? {
        active := Stale;
      }
      AllGone(before, segmentCount);
      forall i | from <= i < |history|
        ensures SegsGone(before, history[i], segmentCount)
      {
        FirstAreGone(before, i - from + 1, segmentCount);
      }
    }

    /** Indexes the records of segment 0 in file order; the scan stops where a boot's scan would. */
    method IndexSegmentZero(f: Bytes)
      modifies `index
      ensures NoTombstones(Scan(f)) ==> index == IndexOf(Located(0, Scan(f)))
    {
      hide Scan, Parse, Insert, IndexOf, Located, NoTombstones;
      index := map[];
      var off := 0;
      ghost var done: seq<Record> := [];
      assert f[off..] == f;
      EmptyLog();
      while true
        invariant off <= |f| && off == SizeOf(done)
        invariant Scan(f) == done + Scan(f[off..])
        invariant NoTombstones(done) ==> index == IndexOf([] + Located(0, done))
        decreases |f| - off
      {
        ScanStep(f, off, done);
        var p := Parse(f[off..]);
        if p.None? {
          break;
        }
        var r := p.value;
        IndexRecord([], 0, done, r);
        NoTombstonesStep(done, r);
        if !r.IsDelete() {
          index := Insert(index, r.key, 0, off, r.ts, r.ttl, r.priority);
        }
        done := done + [r];
        off := off + r.Size();
      }
      assert [] + Located(0, done) == Located(0, done);
    }

    /** Deletes the sources, renames compact.tmp to segment 0, and rebuilds the index and its file from it. */
    method FinalizeCompaction() returns (ghost swap: nat)
      requires segmentCount > 0
      modifies `disk, `history, `active, `index, `indexOpen, `mutations, `currentSegment
      ensures active == if old(active).At? then Stale else old(active)
      ensures CompactTmp !in old(disk.files) ==>
                SegsGone(old(disk), disk, segmentCount) && index == old(index) && swap == |history|
                && forall i :: 0 <= i < segmentCount ==> Seg(i) !in disk.files
      ensures CompactTmp in old(disk.files) ==>
                Swapped(old(disk), disk, segmentCount) && swap < |history| && indexOpen && currentSegment == 0
      ensures CompactTmp in old(disk.files) ==>
                && IndexFile in disk.files && disk.files[IndexFile] == EncodeMutations(mutations)
                && disk.Durable(IndexFile) && Replay(mutations) == index
      ensures CompactTmp in old(disk.files) && NoTombstones(Scan(old(disk.files)[CompactTmp])) ==>
                index == IndexOf(Located(0, Scan(old(disk.files)[CompactTmp])))
      ensures old(history) <= history && |old(history)| <= swap
      ensures forall i :: |old(history)| <= i < |history| ==>
                if i < swap then SegsGone(old(disk), history[i], segmentCount)
                else Swapped(old(disk), history[i], segmentCount)
    {
      hide Scan, EncodeMutations, Replay, Final;
      RemoveSegments();
      swap := |history|;
      if CompactTmp !in disk.files {
        return;
      }
      SwapIn(old(disk));
    }

    method SwapIn(ghost before: Disk)
      requires segmentCount > 0 && CompactTmp in disk.files && SegsGone(before, disk, segmentCount)
      requires forall i :: 0 <= i < segmentCount ==> Seg(i) !in disk.files
      modifies `disk, `history, `index, `indexOpen, `mutations, `currentSegment
      ensures Swapped(before, disk, segmentCount) && indexOpen && currentSegment == 0
      ensures IndexFile in disk.files && disk.files[IndexFile] == EncodeMutations(mutations)
      ensures disk.Durable(IndexFile) && Replay(mutations) == index
      ensures NoTombstones(Scan(before.files[CompactTmp])) ==>
                index == IndexOf(Located(0, Scan(before.files[CompactTmp])))
      ensures old(history) < history
      ensures forall i :: |old(history)| <= i < |history| ==> Swapped(before, history[i], segmentCount)
    {
      hide Scan, EncodeMutations, Replay, Swapped, SegsGone, SameBut, IndexOf, NoTombstones, Rewriting;
      ghost var gone, from := disk, |history|;
      RenameSwaps(before, gone, segmentCount);
      Step(disk.Rename(CompactTmp, Seg(0)));
      IndexSegmentZero(disk.files[Seg(0)]);
      Step(disk.Remove(IndexFile));
      ghost var swapped := disk;
      WriteIndexBulk();
      SwappedButIndex(before, swapped, history, from + 2, segmentCount);
      OpenIndexForAppend();
      currentSegment := 0;
    }

    /** What the segments and the index file say to each other. */
    ghost predicate Stored()
      reads `disk, `segs, `mutations
    {
      Agree(segmentCount, disk, segs, mutations)
    }

    /** What the segments, the index file and the in-memory index say to each other between operations: the index is a
        part of what the index file replays to, and that a part of what a scan finds. */
    ghost predicate Consistent()
      reads `disk, `segs, `mutations, `index, `deadSinceCompact, `lapsed
    {
      Stored() && Counted(index, mutations, segs, deadSinceCompact, lapsed)
    }

    /** The index file has every entry of the scan. */
    ghost predicate Entire()
      reads `mutations, `segs
    {
      Complete(mutations, segs)
    }

    /** The segments are whole, and the index names nothing else in them than their final records. */
    ghost predicate Compactable()
      reads `disk, `segs, `index
    {
      Whole(segmentCount, disk, segs) && Findable(index, segs, disk.files)
    }

    lemma ConsistentIsCompactable()
      requires Consistent()
      ensures Compactable()
    {
      hide LogOf, IndexOf, Total, Clean, Replay, EncodeMutations;
      SoundIsFindable(index, segs, disk.files);
    }

    /** The segment-by-segment phase. */
    method CopySegments(now: nat, ghost sw: Sweep) returns (committed: nat, ok: bool)
      requires sw.Sound() && Selects(Unexpired(index, policyTtl, now), sw, disk.files) && |sw.segs| == segmentCount
      requires MidwayShape(sw, disk, 0) && Clean(disk.files, sw.segs) && Settled(disk)
      modifies `disk, `history
      ensures committed <= segmentCount
      ensures ok ==> committed == segmentCount && MidwayShape(sw, disk, segmentCount)
      ensures !ok ==> committed < segmentCount && CopyShape(sw, disk, committed)
      ensures !ok && committed > 0 ==> GivenUp(sw, disk, committed)
      ensures !ok && committed == 0 ==> SameExcept(disk.files, old(disk.files), {CompactTmp})
      ensures SameExcept(disk.files, old(disk.files), Segments(segmentCount) + {CompactTmp, Journal})
      ensures Settled(disk)
      ensures reliable ==> ok
      ensures old(history) <= history
      ensures Checkpoints(sw, history[|old(history)|..], committed, old(disk.files))
      ensures AllSafe(sw, history[|old(history)|..])
    {
      hide CrashSafe, CopyShape, MidwayShape, SegmentIs, Unexpired, Selects, Sweep.Sound, GivenUp, Checkpoints;
      committed := 0;
      ok := true;
      NoCheckpoints(sw, history[|history|..], disk.files);
      while committed < segmentCount
        invariant committed <= segmentCount
        invariant MidwayShape(sw, disk, committed)
        invariant forall i :: committed <= i < segmentCount ==> SegmentIs(disk.files, i, sw.segs[i])
        invariant Selects(Unexpired(index, policyTtl, now), sw, disk.files)
        invariant SameExcept(disk.files, old(disk.files), Segments(segmentCount) + {CompactTmp, Journal})
        invariant committed == 0 ==> disk.files == old(disk.files)
        invariant ok && Settled(disk)
        invariant old(history) <= history
        invariant Checkpoints(sw, history[|old(history)|..], committed, old(disk.files))
        invariant forall i :: |old(history)| <= i < |history| ==> CrashSafe(sw, history[i])
      {
        ghost var before, done := disk, history;
        assert Seg(committed) in Segments(segmentCount);
        ok := CompactSegment(committed, now, sw);
        if !ok {
          GaveUp(sw, before, disk, committed);
          LaterCheckpoints(sw, |old(history)|, |old(history)|, done, history, committed, old(disk.files),
                           old(disk.files));
          break;
        }
        OtherSegments(before.files, disk.files, committed, sw.segs);
        FewerSegments(before.files, disk.files, committed, Unexpired(index, policyTtl, now), sw);
        NextCheckpoint(sw, done, history, |old(history)|, committed, old(disk.files));
        committed := committed + 1;
      }
      SafeFrom(sw, history, |old(history)|);
    }

    /** Commits the complete copy and swaps it in. */
    method CommitAndSwap(ghost sw: Sweep) returns (ghost swap: nat)
      requires 0 < segmentCount && sw.Sound() && |sw.segs| == segmentCount
      requires MidwayShape(sw, disk, segmentCount) && Settled(disk)
      modifies `disk, `history, `active, `index, `indexOpen, `mutations, `currentSegment
      ensures Clean(disk.files, Compacted(segmentCount, sw.All())) && Settled(disk) && MidSwap(sw, disk)
      ensures IndexFile in disk.files && disk.files[IndexFile] == EncodeMutations(mutations)
      ensures Replay(mutations) == index == IndexOf(Located(0, sw.All()))
      ensures Seg(0) in disk.files && forall i :: 1 <= i < segmentCount ==> Seg(i) !in disk.files
      ensures currentSegment == 0 && indexOpen && !active.At?
      ensures old(history) <= history && |old(history)| <= swap < |history|
      ensures forall i :: |old(history)| <= i < swap ==> CrashSafe(sw, history[i])
      ensures forall i :: swap <= i < |history| ==> MidSwap(sw, history[i])
    {
      hide CrashSafe, EncodeAll, Clean, Located, Compacted, IndexOf, Replay, EncodeMutations, Scan;
      hide MidSwap, CommitShape, MidwayShape, Settled, JournalSays, NoTombstones, Sweep.All;
      ghost var was := disk;
      WriteJournal(JOURNAL_COMMIT, 0, 0);
      CommitStarts(sw, was, disk);
      ghost var before, from := disk, |history|;
      swap := FinalizeCompaction();
      SwapHistory(sw, before, history, from, swap);
      SwapIsClean(sw, before, disk, segmentCount);
      SwappedPhase(sw, before, disk);
      CopyScans(sw);
    }

    /** A finished compaction: segment 0 holds exactly the kept records, nothing is dead, and all agree again. */
    ghost predicate Rewritten(sw: Sweep)
      reads `disk, `segs, `mutations, `index, `deadSinceCompact, `lapsed, `currentSegment,
            `indexOpen, `active
      requires sw.Sound()
    {
      && Consistent() && Complete(mutations, segs) && segs == Compacted(segmentCount, sw.All())
      && index == IndexOf(LogOf(segs))
      && Contents(LogOf(segs)) == ViewOf(sw.keep, sw.Log()) && Total(segs) <= Total(sw.segs)
      && deadSinceCompact == 0 && lapsed == 0 && currentSegment == 0 && indexOpen && !active.At?
      && Seg(0) in disk.files && forall i :: 1 <= i < segmentCount ==> Seg(i) !in disk.files
    }

    lemma RewrittenInTime(sw: Sweep, pruned: Index, policyTtl: Uint32, now: nat)
      requires sw.Sound() && Rewritten(sw)
      requires sw.keep == Found(Unexpired(pruned, policyTtl, now), sw.segs)
      ensures InTime(segs, policyTtl, now)
    {
      hide Sweep.Sound, Unexpired, InTime, Agree, Counted;
      SegmentsAgree(segmentCount, disk, segs, mutations);
      CopyIsInTime(sw, pruned, segmentCount, policyTtl, now);
    }

    /** Swaps the complete copy in and clears the journal: the store is consistent again, on the kept records. */
    method FinishCompaction(ghost sw: Sweep) returns (ghost swap: nat)
      requires 2 <= segmentCount <= MAX_SEGMENTS && sw.Sound() && sw.segs == segs && |segs| == segmentCount
      requires MidwayShape(sw, disk, segmentCount) && Settled(disk) && Total(segs) <= MAX_OFFSET
      modifies `disk, `history, `active, `index, `indexOpen, `mutations, `currentSegment, `deadSinceCompact, `segs,
               `lapsed
      ensures Rewritten(sw)
      ensures old(history) < history && |old(history)| <= swap < |history| - 1 && disk == history[|history| - 1]
      ensures CompactionTrace(sw, history[|old(history)|..], swap - |old(history)|)
    {
      hide Agree, Counted, CompactionTrace, CrashSafe, Clean, Compacted, IndexOf, Replay, EncodeMutations, Total,
           MidSwap, MidwayShape, Settled, Contents, LogOf, ViewOf, Sweep.All, Sweep.Sound;
      swap := CommitAndSwap(sw);
      SwapDone(sw, disk, segmentCount, mutations, index);
      Step(disk.Remove(Journal));
      SwapIsUnsafe(sw, history[|old(history)|..], swap - |old(history)|);
      deadSinceCompact := 0;
      segs := Compacted(segmentCount, sw.All());
      lapsed := 0;
    }

    /** Out of room: with no source deleted yet the attempt is undone, otherwise it is left for the next boot. */
    method AbortCompaction(committed: nat, ghost sw: Sweep, ghost start: Files, ghost first: Files, ghost from: nat)
      requires sw.Sound() && sw.segs == segs && committed < segmentCount && CopyShape(sw, disk, committed)
      requires |segs| == segmentCount && Clean(start, segs) && Settled(disk)
      requires committed == 0 ==> SameExcept(disk.files, start, {CompactTmp})
      requires SameExcept(start, first, {CompactTmp, Journal})
      requires from <= |history| && AllSafe(sw, history[from..])
      modifies `disk, `history
      ensures committed > 0 ==> disk == old(disk) && history == old(history) && Journal in disk.files
      ensures committed == 0 ==>
                Journal !in disk.files && SameExcept(disk.files, first, {CompactTmp, Journal}) && Steady(disk)
      ensures Settled(disk)
      ensures old(history) <= history && CompactionTrace(sw, history[from..], |history| - from)
      ensures CrashSafe(sw, disk.Touch(Seg(segmentCount - 1)))
    {
      hide Clean, CopyShape, CrashSafe, Settled, SameExcept, Sweep.Sound, JournalSays, AllSafe, CompactionTrace;
      ghost var done := history;
      if committed == 0 {
        ghost var d := disk;
        SameWiden(d.files, start, committed);
        AbortSafe(sw, d, start, segmentCount);
        Step(disk.Remove(CompactTmp));
        Step(disk.Remove(Journal));
        SameTrans(disk.files, start, first, committed);
        TwoSafe(sw, history, d.Remove(CompactTmp), d.Remove(CompactTmp).Remove(Journal));
        SafeJoin(sw, from, done, history);
      } else {
        JournalStays(sw, disk, committed);
        TouchLastSafe(sw, disk, committed);
      }
      AbortIsSafe(sw, history[from..]);
    }

    /** Journals the start, opens compact.tmp and enforces the record limit. */
    method BeginCompaction(now: nat) returns (ghost pruned: Index, ghost sw: Sweep)
      requires Compactable()
      modifies `disk, `history, `index, `deadSinceCompact
      ensures PrunedTo(old(index), pruned, maxRecs, policyTtl) && index == pruned
      ensures deadSinceCompact + |index| == old(deadSinceCompact + |index|)
      ensures sw == Sweep(segs, Found(Unexpired(pruned, policyTtl, now), segs)) && sw.Sound()
      ensures Selects(Unexpired(pruned, policyTtl, now), sw, disk.files)
      ensures 2 <= segmentCount == |segs| <= MAX_SEGMENTS && Clean(disk.files, segs) && Total(segs) <= MAX_OFFSET
      ensures Settled(disk) && MidwayShape(sw, disk, 0)
      ensures SameExcept(disk.files, old(disk.files), {CompactTmp, Journal})
      ensures old(history) <= history && AllSafe(sw, history[|old(history)|..])
    {
      hide Clean, Total, Findable, Found, Selects, CrashSafe, BottomSet, MidwayShape, SameExcept, Sweep.Sound,
           JournalSays, Settled;
      ghost var start, ix := disk, index;
      WriteJournal(JOURNAL_COMPACTING, 0, 0);
      ghost var journaled := disk;
      Step(disk.Truncate(CompactTmp));
      var _ := PruneIndex();
      pruned := index;
      ghost var kept := Unexpired(index, policyTtl, now);
      sw := Sweep(segs, Found(kept, segs));
      FoundSelects(ix, kept, segs, start.files);
      CompactionStarts(sw, start, journaled, disk, segmentCount);
      StillSelects(kept, sw, start.files, disk.files);
      assert history[|old(history)|..] == [journaled, disk];
    }

    /** Compaction.  `pruned` is the index after the record limit is enforced, and `sw` what is to be kept.  From
        `history[swap]` on compact.tmp has become segment 0, and until the last step clears the journal a power cut
        there is survived exactly when there was nothing to keep. */
    method Compact(now: nat) returns (ok: bool, ghost pruned: Index, ghost sw: Sweep, ghost swap: nat)
      requires Compactable()
      modifies `disk, `history, `active, `index, `indexOpen, `mutations, `currentSegment, `deadSinceCompact, `segs,
               `lapsed
      ensures PrunedTo(old(index), pruned, maxRecs, policyTtl)
      ensures sw == Sweep(old(segs), Found(Unexpired(pruned, policyTtl, now), old(segs))) && sw.Sound()
      ensures reliable ==> ok
      ensures ok ==> Rewritten(sw)
      ensures ok ==> forall r :: r in segs[0] ==>
                var t := if r.ttl % TWO_24 > 0 then r.ttl % TWO_24 else policyTtl;
                t == 0 || now < r.ts + t
      ensures !ok ==> segs == old(segs) && mutations == old(mutations) && index == pruned && lapsed == old(lapsed)
                      && active == old(active) && indexOpen == old(indexOpen) && currentSegment == old(currentSegment)
      ensures !ok && Journal !in disk.files ==>
                SameExcept(disk.files, old(disk.files), {CompactTmp, Journal}) && Steady(disk)
      ensures !ok ==> Settled(disk) && deadSinceCompact + |index| == old(deadSinceCompact + |index|)
      ensures !ok && Journal in disk.files ==> exists s :: GivenUp(sw, disk, s)
      ensures !ok ==> CrashSafe(sw, disk.Touch(Seg(segmentCount - 1)))
      ensures old(history) <= history && |old(history)| <= swap
      ensures if ok then swap < |history| - 1 && disk == history[|history| - 1] else swap == |history|
      ensures CompactionTrace(sw, history[|old(history)|..], swap - |old(history)|)
      ensures ok ==> Checkpoints(sw, history[|old(history)|..], segmentCount, old(disk.files))
    {
      hide Agree, AgreeOn, Counted, Checkpoints, AllSafe, CompactionTrace, CrashSafe, SameExcept, Settled, Sweep.Sound, BottomSet, GivenUp, Unexpired, MidwayShape, CopyShape, Rewritten, Clean, Total, Compactable, Selects, Found, Submap, Segments, PrunedTo;
      ghost var first := disk.files;
      pruned, sw := BeginCompaction(now);
      ghost var begun, start := history, disk.files;
      var committed, copied := CopySegments(now, sw);
      SafeJoin(sw, |old(history)|, begun, history);
      ghost var done := history;
      if !copied {
        AbortCompaction(committed, sw, start, first, |old(history)|);
        return false, pruned, sw, |history|;
      }
      swap := FinishCompaction(sw);
      RewrittenInTime(sw, pruned, policyTtl, now);
      TraceJoin(sw, |old(history)|, done, history, swap);
      LaterCheckpoints(sw, |old(history)|, |begun|, done, history, segmentCount, start, first);
      return true, pruned, sw, swap;
    }

    /** A compaction after one that gave up when it had deleted segments: of the unexpired records that the limit
        leaves, exactly those whose segment is still there come through.  The others were in compact.tmp only. */
    method CompactAgain(now: nat, ghost last: Sweep, ghost s: nat) returns (ok: bool, ghost pruned: Index)
      requires GivenUp(last, disk, s) && last.Sound() && last.segs == segs && |segs| == segmentCount
      requires 2 <= segmentCount <= MAX_SEGMENTS && Total(segs) <= MAX_OFFSET && Submap(index, IndexOf(LogOf(segs)))
      modifies `disk, `history, `active, `index, `indexOpen, `mutations, `currentSegment, `deadSinceCompact, `segs,
               `lapsed
      ensures reliable ==> ok
      ensures PrunedTo(old(index), pruned, maxRecs, policyTtl)
      ensures ok ==>
                && Consistent() && View() == Contents(LogOf(segs))
                && View() == Surviving(Unexpired(pruned, policyTtl, now), old(segs), s)
    {
      hide Agree, Counted, CompactionTrace, Checkpoints, CrashSafe, Whole, Findable, Found, GivenUp, Sweep.Sound,
           Sweep.All, BottomSet, Unexpired, Surviving, LogOf, IndexOf, Total, Contents, ViewOf, Compacted, Remnants,
           Submap;
      ghost var was, ix := segs, index;
      RemnantsAreWhole(last, disk, s, index);
      segs := Remnants(segs, s);
      ghost var sw, swap;
      ok, pruned, sw, swap := Compact(now);
      StillScanned(ix, pruned, was, policyTtl, now, maxRecs);
      FoundInRemnants(Unexpired(pruned, policyTtl, now), was, s);
      if ok {
        ContentsAreView(index, LogOf(segs));
      }
    }

    // ---------------------------------------------------------------- operations

    /** The newest segment is open for appending, and nothing is buffered. */
    ghost predicate Ready()
      reads `writeBuf, `writeBufPos, `indexOpen, `currentSegment, `segs, `active, `disk, `currentOffset
    {
      && writeBuf.Length == BUFFER_SIZE && writeBufPos == 0 && indexOpen
      && currentSegment < segmentCount == |segs| && active == At(currentSegment) && Seg(currentSegment) in disk.files
      && currentOffset == SizeOf(segs[currentSegment])
      && (forall i :: currentSegment < i < segmentCount ==> Seg(i) !in disk.files)
    }

    /** The store between operations. */
    ghost predicate Valid()
      reads `disk, `segs, `mutations, `index, `deadSinceCompact, `lapsed, `writeBuf, `writeBufPos, `indexOpen,
            `currentSegment, `active, `currentOffset
    {
      Consistent() && Ready()
    }

    lemma ConsistentFacts()
      requires Consistent()
      ensures 2 <= segmentCount == |segs| && Journal !in disk.files && Total(segs) <= MAX_OFFSET
      ensures IndexFile in disk.files && disk.files[IndexFile] == EncodeMutations(mutations)
      ensures Submap(index, Replay(mutations)) && Submap(index, IndexOf(LogOf(segs)))
    {
    }

    /** Where the next record goes. */
    lemma ReadyFacts()
      requires Ready()
      ensures currentSegment < |segs| && currentOffset == SizeOf(segs[currentSegment]) <= Total(segs)
    {
      SegmentWithinTotal(segs, currentSegment);
    }

    lemma ValidFacts()
      requires Valid()
      ensures 2 <= segmentCount && Journal !in disk.files && Holding().Sound()
    {
    }

    lemma NothingStored()
      requires Consistent() && LogOf(segs) == []
      ensures index == map[] && View() == map[] && deadSinceCompact == 0
    {
      hide Agree;
      EmptyView(LogOf(segs));
    }

    /** The map a caller sees: for each indexed key, the record its entry points at. */
    ghost function View(): map<Key, Record>
      reads `index, `segs
    {
      ViewOf(index, LogOf(segs))
    }

    method WriteRecord(r: Record, ghost full: Bytes)
      requires Buffering() && writeBufPos == 0 && Extends(disk, disk, Seg(active.seg), full)
      requires full == disk.files[Seg(active.seg)] + (Header(r) + r.key + r.value + Le(MAGIC_COMMIT, 4))
      modifies `disk, `history, `writeBufPos, writeBuf
      ensures writeBufPos == 0 && Growing(old(disk), |old(history)|, full)
      ensures old(disk.Durable(Seg(active.seg))) ==> disk.Durable(Seg(active.seg))
      ensures disk.files == old(disk.files)[Seg(active.seg) := full]
      ensures old(history) <= history
    {
      hide Encode, Header, Extends, Disk.Durable, SameExcept, Le;
      ghost var before, from := disk, |history|;
      assert Stream() + Header(r) + r.key + r.value + Le(MAGIC_COMMIT, 4) == full;
      AppendBuffer(Header(r), before, from, full);
      AppendBuffer(r.key, before, from, full);
      AppendBuffer(r.value, before, from, full);
      AppendBuffer(Le(MAGIC_COMMIT, 4), before, from, full);
      assert Stream() == full;
      var _ := FlushBuffer(before, from, full);
      assert disk.files[Seg(active.seg)] == full;
      OnlyExtended(before, disk, Seg(active.seg), full);
    }

    /** Streams one record through the write buffer into the active segment. */
    method AppendRecord(r: Record, ghost m: Mutation)
      requires Valid() && Storable(r) && Total(segs) + r.Size() <= MAX_OFFSET
      modifies `disk, `history, `writeBufPos, writeBuf
      ensures writeBufPos == 0 && Staged(segmentCount, disk, segs, currentSegment, currentOffset, r, mutations)
      ensures old(history) <= history
      ensures AllLogSafe(history[|old(history)|..], segs, currentSegment, r, mutations, m)
    {
      hide Agree, Counted, Staged, Encode, Header, EncodeAll, LogSafe, AllLogSafe, Extends, Record.Size, SizeOf, Total;
      ghost var name, before, from := Seg(currentSegment), disk, |history|;
      ghost var full := EncodeAll(segs[currentSegment] + [r]);
      ActiveIsWhole(segmentCount, before, segs, mutations, currentSegment);
      AppendStarts(before, segs, currentSegment, r);
      WriteRecord(r, full);
      StagedAfter(segmentCount, before, disk, segs, currentSegment, r, mutations);
      forall i | from <= i < |history|
        ensures LogSafe(segs, currentSegment, r, mutations, m, history[i])
      {
        AppendCrash(segmentCount, segs, currentSegment, r, mutations, m, before, history[i]);
      }
      AllLogSafeFrom(history, from, segs, currentSegment, r, mutations, m);
    }

    /** Writes the index mutation for a record that has just been appended. */
    method LogMutation(m: Mutation, ghost r: Record)
      requires Staged(segmentCount, disk, segs, currentSegment, currentOffset, r, mutations) && indexOpen
      modifies `disk, `history, `mutations
      ensures mutations == old(mutations) + [m]
      ensures disk.files == old(disk.files)[IndexFile := EncodeMutations(mutations)] && Steady(disk)
      ensures old(history) <= history
      ensures AllLogSafe(history[|old(history)|..], segs, currentSegment, r, old(mutations), m)
    {
      hide Staged, EncodeMutations, LogSafe, AllLogSafe, Extends, Settled;
      ghost var before, ms, from := disk, mutations, |history|;
      StagedFacts(segmentCount, before, segs, currentSegment, currentOffset, r, ms);
      var _ := PersistIndexEntry(m);
      SteadyAfter(before, disk, IndexFile, EncodeMutations(mutations));
      OnlyExtended(before, disk, IndexFile, EncodeMutations(mutations));
      forall i | from <= i < |history|
        ensures LogSafe(segs, currentSegment, r, ms, m, history[i])
      {
        PersistCrash(segmentCount, segs, currentSegment, currentOffset, r, ms, m, before, history[i]);
      }
      AllLogSafeFrom(history, from, segs, currentSegment, r, ms, m);
    }

    /** Logs one put record and indexes it; the record limit may then evict entries. */
    method LogPut(r: Record)
      requires Valid() && Storable(r) && !r.IsDelete() && Total(segs) + r.Size() <= MAX_OFFSET
      modifies `disk, `history, `writeBufPos, writeBuf, `index, `deadSinceCompact, `mutations, `segs, `currentOffset
      ensures Valid() && segs == Appended(old(segs), currentSegment, r)
      ensures Logged(old(Holding()), Holding(), r, maxRecs, policyTtl) && (old(Entire()) ==> Entire())
      ensures maxRecs > 0 && old(|index|) <= maxRecs ==> |index| <= maxRecs
      ensures PutInto(old(Holding()), Holding(), currentSegment, r, maxRecs, policyTtl)
      ensures |index| + deadSinceCompact == old(|index| + deadSinceCompact) + 1
      ensures old(history) <= history
      ensures AllLogSafe(history[|old(history)|..], old(segs), currentSegment, r, old(mutations),
                         MutationOf(currentSegment, old(currentOffset), r))
      ensures Guarded(history[|old(history)|..], segmentCount, AtRest(old(segs)), AtRest(segs))
    {
      hide Agree, Counted, Staged, Logged, AllLogSafe, Guarded, AtRest, PrunedTo, Complete, Record.Size, SizeOf, Total,
           Appended, EntryOf, MutationOf, Record.IsDelete;
      ghost var a, before, ms, dead := Holding(), disk, mutations, deadSinceCompact;
      var m := MutationOf(currentSegment, currentOffset, r);
      AppendRecord(r, m);
      ghost var staged := history;
      IndexPut(r, Loc(currentSegment, currentOffset, r));
      PutLogs(segmentCount, before, ms, a, dead, currentSegment, r, index, deadSinceCompact, maxRecs, policyTtl);
      CommitRecord(r, m);
      AllLogSafeJoin(|old(history)|, staged, history, a.segs, currentSegment, r, ms, m);
      LoggingGuards(history[|old(history)|..], a.segs, currentSegment, r, ms, m);
    }

    /** Writes the mutation of a record that has just been appended; the store is then one record further. */
    method CommitRecord(r: Record, m: Mutation)
      requires Staged(segmentCount, disk, segs, currentSegment, currentOffset, r, mutations)
      requires m == MutationOf(currentSegment, currentOffset, r)
      requires Counted(index, mutations + [m], Appended(segs, currentSegment, r), deadSinceCompact, lapsed)
      requires Idle() && active == At(currentSegment)
      modifies `disk, `history, `mutations, `segs, `currentOffset
      ensures Valid() && segs == Appended(old(segs), currentSegment, r) && mutations == old(mutations) + [m]
      ensures old(history) <= history
      ensures AllLogSafe(history[|old(history)|..], old(segs), currentSegment, r, old(mutations), m)
    {
      hide Agree, Staged, Counted, AllLogSafe, Settled, Appended, MutationOf, Record.Size, SizeOf;
      ghost var before, ms := disk, mutations;
      LogMutation(m, r);
      StagedFacts(segmentCount, before, segs, currentSegment, currentOffset, r, ms);
      StagedCommits(segmentCount, before, disk, segs, currentSegment, currentOffset, r, ms);
      currentOffset := currentOffset + r.Size();
      segs := Appended(segs, currentSegment, r);
    }

    /** Points the key's entry at the new record and enforces the record limit. */
    method IndexPut(r: Record, ghost l: Loc)
      requires l == Loc(currentSegment, currentOffset, r)
      modifies `index, `deadSinceCompact
      ensures PrunedTo(old(index)[r.key := EntryOf(l)], index, maxRecs, policyTtl)
      ensures |index| + deadSinceCompact == old(|index| + deadSinceCompact) + 1
    {
      if r.key in index {
        deadSinceCompact := deadSinceCompact + 1;
      }
      index := Insert(index, r.key, currentSegment, currentOffset, r.ts, r.ttl, r.priority);
      ghost var full := index;
      InsertSize(old(index), r.key, full[r.key]);
      if maxRecs > 0 && |index| > maxRecs {
        var _ := PruneIndex();
      }
    }

    /** Logs a tombstone and drops the key. */
    method LogTombstone(r: Record)
      requires Valid() && Storable(r) && r.IsDelete() && Total(segs) + r.Size() <= MAX_OFFSET
      modifies `disk, `history, `writeBufPos, writeBuf, `index, `deadSinceCompact, `mutations, `segs, `currentOffset
      ensures Valid() && segs == Appended(old(segs), currentSegment, r)
      ensures Logged(old(Holding()), Holding(), r, 0, policyTtl) && |index| <= old(|index|)
      ensures old(Entire()) ==> Entire()
      ensures index == Without(old(index), r.key)
      ensures deadSinceCompact == old(deadSinceCompact) + if r.key in old(index) then 1 else 0
      ensures old(history) <= history
      ensures AllLogSafe(history[|old(history)|..], old(segs), currentSegment, r, old(mutations),
                         MutationOf(currentSegment, old(currentOffset), r))
      ensures Guarded(history[|old(history)|..], segmentCount, AtRest(old(segs)), AtRest(segs))
    {
      hide Agree, Counted, Staged, Logged, AllLogSafe, Guarded, AtRest, Complete, Record.Size, SizeOf, Total, Appended,
           MutationOf, Record.IsDelete, Without, EntryOf;
      ghost var a, before, ms, dead := Holding(), disk, mutations, deadSinceCompact;
      var m := MutationOf(currentSegment, currentOffset, r);
      AppendRecord(r, m);
      ghost var staged := history;
      IndexDrop(r.key);
      TombstoneLogs(segmentCount, before, ms, a, dead, currentSegment, r, deadSinceCompact, policyTtl);
      CommitRecord(r, m);
      AllLogSafeJoin(|old(history)|, staged, history, a.segs, currentSegment, r, ms, m);
      LoggingGuards(history[|old(history)|..], a.segs, currentSegment, r, ms, m);
    }

    method IndexDrop(k: Key)
      modifies `index, `deadSinceCompact
      ensures index == Without(old(index), k) && |index| <= old(|index|)
      ensures |index| + deadSinceCompact == old(|index| + deadSinceCompact)
      ensures deadSinceCompact == old(deadSinceCompact) + if k in old(index) then 1 else 0
    {
      RemoveSize(index, k);
      if k in index {
        deadSinceCompact := deadSinceCompact + 1;
      }
      index := index - {k};
    }

    /** What the store has. */
    ghost function Holding(): Held
      reads `index, `segs, `lapsed
    {
      Held(index, segs, lapsed)
    }

    /** A compaction as the caller of the store sees it. */
    method CompactVisibly(now: nat) returns (ok: bool)
      requires Consistent()
      modifies `disk, `history, `active, `index, `indexOpen, `mutations, `currentSegment, `deadSinceCompact, `segs,
               `lapsed
      ensures reliable ==> ok
      ensures ok ==> Shrunk() && Repacked(old(Holding()), Holding()) && InTime(segs, policyTtl, now)
      ensures !ok ==> segs == old(segs) && active == old(active) && indexOpen == old(indexOpen)
                      && currentSegment == old(currentSegment)
      ensures !ok && Journal !in disk.files ==> SameExcept(disk.files, old(disk.files), {CompactTmp, Journal})
      ensures ok || Journal !in disk.files ==> Consistent()
      ensures Tended(old(Holding()), Holding(), policyTtl, now, maxRecs) && (old(Entire()) ==> Entire())
      ensures old(history) <= history
      ensures Upkept(history[|old(history)|..], segmentCount, old(Holding()), Holding(), policyTtl, now, maxRecs)
      ensures !ok ==>
                var p := Promised(old(Holding()), Holding(), policyTtl, now, maxRecs);
                Survives(disk.Touch(Seg(segmentCount - 1)), segmentCount, p, p)
    {
      hide Agree, Counted, CrashSafe, Settled, Compactable, CompactionTrace, Upkept, Survives, Tended, Promised, Puts,
           Total, LogOf, IndexOf, ViewOf, Contents, Unexpired, Found, PrunedTo, Complete, Sweep.Sound, Sweep.All,
           Submap, SameExcept, Compacted, Repacked;
      ghost var a, before, ms, dead := Holding(), disk, mutations, deadSinceCompact;
      ghost var pruned, sw, swap;
      SegmentsAgree(segmentCount, disk, segs, mutations);
      CountedIsSound(index, mutations, segs, deadSinceCompact, lapsed);
      ConsistentIsCompactable();
      ok, pruned, sw, swap := Compact(now);
      AllFound(a.index, pruned, a.segs, policyTtl, now, maxRecs);
      CompactionShows(a, pruned, sw, Holding(), policyTtl, now, maxRecs);
      CompactionGuards(a, pruned, sw, Holding(), history[|old(history)|..], swap - |old(history)|, policyTtl, now,
                       maxRecs);
      if ok {
        CompactionTends(a, pruned, sw, Holding(), policyTtl, now, maxRecs);
        CompactionRepacks(a, pruned, sw, Holding(), policyTtl, now, maxRecs);
      } else {
        if Journal !in disk.files {
          AgreeSame(segmentCount, before, disk, segs, ms);
          PrunedIsCounted(a.index, pruned, ms, segs, dead, lapsed, maxRecs, policyTtl);
        }
        PruningTends(a, pruned, policyTtl, now, maxRecs);
        SafeSurvives(a, pruned, sw, Holding(), disk.Touch(Seg(segmentCount - 1)), policyTtl, now, maxRecs);
      }
    }

    /** Just compacted: nothing is dead, and only segment 0 is left. */
    ghost predicate Shrunk()
      reads `disk, `segs, `mutations, `index, `deadSinceCompact, `lapsed, `indexOpen
    {
      && Consistent() && Complete(mutations, segs) && index == IndexOf(LogOf(segs))
      && deadSinceCompact == 0 && lapsed == 0 && indexOpen
      && forall i :: 1 <= i < segmentCount ==> Seg(i) !in disk.files
    }

    /** Nothing is buffered. */
    ghost predicate Idle()
      reads `writeBuf, `writeBufPos, `indexOpen
    {
      writeBuf.Length == BUFFER_SIZE && writeBufPos == 0 && indexOpen
    }

    /** After a compaction segment 0 is the compacted data; fresh writes start at segment 1. */
    method OpenFresh()
      requires Shrunk() && Idle()
      modifies `disk, `history, `active, `currentSegment, `currentOffset
      ensures Valid() && currentSegment == 1 && Journal !in disk.files
      ensures history == old(history) + [disk]
    {
      hide Agree, Counted, SizeOf;
      SegmentsAgree(segmentCount, disk, segs, mutations);
      OpenSegment(1);
      SegmentsAgree(segmentCount, disk, segs, mutations);
    }

    /** Writing goes on behind what the last segment holds. */
    method OpenLast()
      requires 2 <= segmentCount
      modifies `disk, `history, `active, `currentSegment, `currentOffset
      ensures disk == old(disk).Touch(Seg(segmentCount - 1)) && currentSegment == segmentCount - 1
      ensures Journal in disk.files <==> Journal in old(disk.files)
      ensures old(Consistent() && Idle()) ==> Valid()
      ensures history == old(history) + [disk]
    {
      hide Agree, Counted, SizeOf;
      if Consistent() {
        SegmentsAgree(segmentCount, disk, segs, mutations);
      }
      OpenSegment(segmentCount - 1);
    }

    /** Compacts and goes on in segment 1. */
    method CompactAfresh(now: nat) returns (ok: bool)
      requires Consistent() && Idle()
      modifies `disk, `history, `active, `index, `indexOpen, `mutations, `currentSegment, `currentOffset,
               `deadSinceCompact, `segs, `lapsed
      ensures reliable ==> ok
      ensures ok ==> Valid() && currentSegment == 1 && deadSinceCompact == 0 && Journal !in disk.files
      ensures ok ==> Repacked(old(Holding()), Holding()) && InTime(segs, policyTtl, now)
      ensures !ok ==> segs == old(segs) && active == old(active) && indexOpen == old(indexOpen)
                      && currentSegment == old(currentSegment) && currentOffset == old(currentOffset)
      ensures !ok && Journal !in disk.files ==> SameExcept(disk.files, old(disk.files), {CompactTmp, Journal})
      ensures ok || Journal !in disk.files ==> Consistent()
      ensures Tended(old(Holding()), Holding(), policyTtl, now, maxRecs) && (old(Entire()) ==> Entire())
      ensures old(history) <= history
      ensures Upkept(history[|old(history)|..], segmentCount, old(Holding()), Holding(), policyTtl, now, maxRecs)
      ensures !ok ==>
                var p := Promised(old(Holding()), Holding(), policyTtl, now, maxRecs);
                Survives(disk.Touch(Seg(segmentCount - 1)), segmentCount, p, p)
    {
      hide Agree, Counted, Complete, Upkept, Survives, Tended, Promised, LogOf, IndexOf, SameExcept, Repacked, InTime;
      ghost var a := Holding();
      ok := CompactVisibly(now);
      if ok {
        ghost var done := history;
        OpenFresh();
        RestGuards(done, segmentCount, disk, mutations, a, Holding(), policyTtl, now, maxRecs);
        UpkeptJoin(|old(history)|, done, history, segmentCount, old(Holding()), Holding(), policyTtl, now,
                   maxRecs);
      }
    }

    /** Compacts when at least a quarter of the put records on disk are dead. */
    method CompactIfThreshold(now: nat)
      requires Valid()
      modifies `disk, `history, `active, `index, `indexOpen, `mutations, `currentSegment, `currentOffset,
               `deadSinceCompact, `segs, `lapsed
      ensures reliable ==> Journal !in disk.files
      ensures Journal !in disk.files ==> Valid()
      ensures Tended(old(Holding()), Holding(), policyTtl, now, maxRecs) && (old(Entire()) ==> Entire())
      ensures !old(Due(|index|, deadSinceCompact)) ==>
                && disk == old(disk) && Holding() == old(Holding()) && deadSinceCompact == old(deadSinceCompact)
                && currentSegment == old(currentSegment) && currentOffset == old(currentOffset)
      ensures reliable && old(Due(|index|, deadSinceCompact)) ==>
                && deadSinceCompact == 0 && currentSegment == 1
                && Repacked(old(Holding()), Holding()) && InTime(segs, policyTtl, now)
      ensures reliable ==> !Due(|index|, deadSinceCompact)
      ensures old(history) <= history
      ensures Upkept(history[|old(history)|..], segmentCount, old(Holding()), Holding(), policyTtl, now, maxRecs)
    {
      hide Agree, Counted, Complete, Upkept, Survives, Tended, Promised, SizeOf, LogOf, IndexOf, Repacked, InTime;
      SegmentsAgree(segmentCount, disk, segs, mutations);
      ThresholdExact(segmentCount, disk, segs, mutations, index, deadSinceCompact, lapsed);
      ghost var a := Holding();
      CountedIsSound(index, mutations, segs, deadSinceCompact, lapsed);
      var total := |index| + deadSinceCompact;
      if total > 0 && Mul32(deadSinceCompact, 100) / total >= COMPACT_THRESHOLD {
        var _ := CompactAfresh(now);
      } else {
        TendedSame(a, policyTtl, now, maxRecs);
        UpkeptNothing(history, segmentCount, Holding(), Holding(), policyTtl, now, maxRecs);
      }
    }

    /** A value of that size needs a compaction before it can be written. */
    predicate Full(writeSize: nat)
      reads `currentOffset, `currentSegment
    {
      currentOffset + writeSize + HEADER_SIZE + COMMIT_SIZE >= segmentSize && currentSegment + 1 >= segmentCount
    }

    /** The segment a value of that size goes to, if there is one. */
    function Target(writeSize: nat): nat
      reads `currentOffset, `currentSegment
    {
      if currentOffset + writeSize + HEADER_SIZE + COMMIT_SIZE < segmentSize then currentSegment else currentSegment + 1
    }

    /** A put of that key and size compacts nothing: there is room for it, and it leaves too few dead records. */
    predicate Spares(k: Key, writeSize: nat)
      reads `currentOffset, `currentSegment, `index, `deadSinceCompact, `maxRecs
    {
      !Full(writeSize) && !Due(LiveAfter(index, k, maxRecs), DeadAfter(index, k, maxRecs, deadSinceCompact))
    }

    /** Between operations nothing is buffered, and a flush does nothing. */
    method FlushIdle()
      requires writeBuf.Length == BUFFER_SIZE && writeBufPos == 0
      modifies `disk, `history, `writeBufPos
      ensures disk == old(disk) && history == old(history) && writeBufPos == 0
    {
      var _ := FlushBuffer(disk, |history|, []);
    }

    method CloseSegment()
      requires Idle()
      modifies `disk, `history, `writeBufPos, `active, `currentSegment
      ensures Idle() && disk == old(disk) && history == old(history) && currentSegment == old(currentSegment) + 1
    {
      FlushIdle();
      active := Closed;
      currentSegment := currentSegment + 1;
    }

    /** The segment after the last one in use is opened, empty. */
    method OpenNext()
      requires Consistent() && Idle() && 0 < currentSegment < segmentCount
      requires forall i :: currentSegment <= i < segmentCount ==> Seg(i) !in disk.files
      modifies `disk, `history, `active, `currentSegment, `currentOffset
      ensures Valid() && Stored() && currentSegment == old(currentSegment) && currentOffset == 0
                && Journal !in disk.files
      ensures history == old(history) + [disk]
    {
      hide Agree, Counted, SizeOf;
      SegmentsAgree(segmentCount, disk, segs, mutations);
      OpenSegment(currentSegment);
      SegmentsAgree(segmentCount, disk, segs, mutations);
    }

    /** Moves on to the next segment when the write would not fit, compacting when there is none. */
    method RotateIfNeeded(writeSize: nat, now: nat, cooling: bool) returns (ok: bool)
      requires Valid()
      modifies `disk, `history, `writeBufPos, `active, `index, `indexOpen, `mutations, `currentSegment, `currentOffset,
               `deadSinceCompact, `segs, `lapsed, `inCooldown
      ensures reliable || !old(Full(writeSize)) ==> Journal !in disk.files
      ensures Journal !in disk.files ==> Valid()
      ensures Tended(old(Holding()), Holding(), policyTtl, now, maxRecs) && (old(Entire()) ==> Entire())
      ensures old(currentOffset) + writeSize + HEADER_SIZE + COMMIT_SIZE < segmentSize ==>
                && ok && disk == old(disk) && Holding() == old(Holding()) && currentSegment == old(currentSegment)
                && currentOffset == old(currentOffset) && deadSinceCompact == old(deadSinceCompact)
      ensures old(currentOffset) + writeSize + HEADER_SIZE + COMMIT_SIZE >= segmentSize ==>
                if old(currentSegment) + 1 < segmentCount then
                  && ok && currentSegment == old(currentSegment) + 1 && currentOffset == 0
                  && Holding() == old(Holding()) && deadSinceCompact == old(deadSinceCompact)
                else
                  && (ok ==> Repacked(old(Holding()), Holding()) && InTime(segs, policyTtl, now))
                  && currentSegment == (if ok then 1 else segmentCount - 1)
                  && (reliable ==> (ok <==> !(old(inCooldown) && cooling)))
      ensures old(history) <= history
      ensures Upkept(history[|old(history)|..], segmentCount, old(Holding()), Holding(), policyTtl, now, maxRecs)
    {
      hide Agree, Counted, Complete, Upkept, Survives, Tended, Promised, SizeOf, LogOf, IndexOf, Repacked, InTime;
      ghost var a := Holding();
      CountedIsSound(index, mutations, segs, deadSinceCompact, lapsed);
      TendedSame(a, policyTtl, now, maxRecs);
      SegmentsAgree(segmentCount, disk, segs, mutations);
      if currentOffset + writeSize + HEADER_SIZE + COMMIT_SIZE < segmentSize {
        UpkeptNothing(history, segmentCount, Holding(), Holding(), policyTtl, now, maxRecs);
        return true;
      }
      CloseSegment();
      if currentSegment >= segmentCount {
        ok := WrapAround(now, cooling);
        return;
      }
      ghost var done := history;
      OpenNext();
      RestGuards(done, segmentCount, disk, mutations, a, a, policyTtl, now, maxRecs);
      return true;
    }

    /** Every segment is full: compact, or, while that keeps failing, go on with the last segment. */
    method WrapAround(now: nat, cooling: bool) returns (ok: bool)
      requires Consistent() && Idle()
      modifies `disk, `history, `active, `index, `indexOpen, `mutations, `currentSegment, `currentOffset,
               `deadSinceCompact, `segs, `lapsed, `inCooldown
      ensures reliable ==> Journal !in disk.files
      ensures Journal !in disk.files ==> Valid()
      ensures Tended(old(Holding()), Holding(), policyTtl, now, maxRecs) && (old(Entire()) ==> Entire())
      ensures ok ==> currentSegment == 1 && deadSinceCompact == 0 && !inCooldown
      ensures ok ==> Repacked(old(Holding()), Holding()) && InTime(segs, policyTtl, now)
      ensures !ok ==> currentSegment == segmentCount - 1 && inCooldown
      ensures old(inCooldown) && cooling ==>
                !ok && disk == old(disk).Touch(Seg(segmentCount - 1)) && index == old(index)
      ensures reliable ==> (ok <==> !(old(inCooldown) && cooling))
      ensures old(history) <= history
      ensures Upkept(history[|old(history)|..], segmentCount, old(Holding()), Holding(), policyTtl, now, maxRecs)
    {
      hide Consistent, Ready, Complete, Upkept, Survives, Tended, Promised, LogOf, IndexOf, SizeOf, SameExcept,
           Submap, Holding, Repacked, InTime, Total, ViewOf;
      ConsistentFacts();
      if inCooldown && cooling {
        StayInLast(now);
        return false;
      }
      ok := CompactAfresh(now);
      inCooldown := !ok;
      if !ok {
        ghost var done := history;
        OpenLast();
        OneGuards(done, disk, segmentCount, old(Holding()), Holding(), policyTtl, now, maxRecs);
        UpkeptJoin(|old(history)|, done, history, segmentCount, old(Holding()), Holding(), policyTtl, now,
                   maxRecs);
      }
    }

    /** While compaction keeps failing it is not even tried. */
    method StayInLast(ghost now: nat)
      requires Consistent() && Idle()
      modifies `disk, `history, `active, `currentSegment, `currentOffset
      ensures Valid() && Journal !in disk.files && Tended(old(Holding()), Holding(), policyTtl, now, maxRecs)
      ensures disk == old(disk).Touch(Seg(segmentCount - 1)) && currentSegment == segmentCount - 1
      ensures old(history) <= history
      ensures Upkept(history[|old(history)|..], segmentCount, old(Holding()), Holding(), policyTtl, now, maxRecs)
    {
      hide Agree, Counted, Complete, Upkept, Survives, Tended, Promised, LogOf, IndexOf;
      ghost var a := Holding();
      CountedIsSound(index, mutations, segs, deadSinceCompact, lapsed);
      TendedSame(a, policyTtl, now, maxRecs);
      SegmentsAgree(segmentCount, disk, segs, mutations);
      OpenLast();
      SegmentsAgree(segmentCount, disk, segs, mutations);
      RestGuards(old(history), segmentCount, disk, mutations, a, a, policyTtl, now, maxRecs);
    }

    /** Stores a value.  Rotation may compact first, and a quarter of dead records compacts afterwards.  A compaction
        that gives up half way ends the session: its journal stays, and `Valid` with it. */
    method Put(key: Bytes, data: Bytes, ttl: Uint32, ts: Uint32, priority: Byte, now: nat, cooling: bool)
      returns (ok: bool)
      requires Valid() && (reliable || !Full(|data|))
      requires 1 <= |key| < 0x100 && |data| < 0x1_0000
      requires Total(segs) + HEADER_SIZE + |key| + |data| + COMMIT_SIZE <= MAX_OFFSET
      modifies `disk, `history, `writeBufPos, writeBuf, `active, `index, `indexOpen, `mutations, `currentSegment,
               `currentOffset, `deadSinceCompact, `segs, `lapsed, `inCooldown
      ensures reliable ==> Journal !in disk.files
      ensures Journal !in disk.files ==> Valid()
      ensures ok <==> |key| <= MAX_KEY_LEN && |data| <= MAX_VALUE_LEN
      ensures !ok ==> disk == old(disk) && history == old(history) && Holding() == old(Holding())
      ensures ok && maxRecs > 0 && old(|index|) <= maxRecs ==> |index| <= maxRecs
      ensures ok && reliable ==> !Due(|index|, deadSinceCompact)
      ensures ok && old(Spares(key, |data|)) ==>
                var r := PutRecord(key, data, ttl, ts, priority);
                && PutInto(old(Holding()), Holding(), currentSegment, r, maxRecs, policyTtl)
                && Logged(old(Holding()), Holding(), r, maxRecs, policyTtl)
                && |index| + deadSinceCompact == old(|index| + deadSinceCompact) + 1
                && currentSegment == old(Target(|data|))
      ensures ok && reliable && !old(Full(|data|)) && !old(Spares(key, |data|)) ==>
                var r := PutRecord(key, data, ttl, ts, priority);
                exists c :: PutInto(old(Holding()), c, old(Target(|data|)), r, maxRecs, policyTtl)
                            && Repacked(c, Holding())
      ensures ok && reliable && old(Full(|data|)) && !(old(inCooldown) && cooling) ==>
                var r := PutRecord(key, data, ttl, ts, priority);
                exists b, c :: Repacked(old(Holding()), b) && PutInto(b, c, 1, r, maxRecs, policyTtl)
                               && (c == Holding() || Repacked(c, Holding()))
      ensures ok && reliable && !old(Spares(key, |data|)) && !(old(Full(|data|)) && old(inCooldown) && cooling) ==>
                InTime(segs, policyTtl, now)
      ensures old(history) <= history && (old(Entire()) ==> Entire()) && (old(AllCheckOut(segs)) ==> AllCheckOut(segs))
      ensures ok ==>
                var r := PutRecord(key, data, ttl, ts, priority);
                && Updated(old(Holding()), Holding(), r, policyTtl, now, maxRecs)
                && Guarded(history[|old(history)|..], segmentCount,
                           ClaimBefore(old(Holding()), Holding(), r, policyTtl, now, maxRecs),
                           ClaimAfter(old(Holding()), Holding(), r, policyTtl, now, maxRecs))
    {
      hide Valid, Complete, Guarded, Updated, ClaimBefore, ClaimAfter, LogOf, Total, PutRecord, RecordCrc, Logged,
           PutInto, Spares, Due, Repacked, InTime, ChecksOut, AllCheckOut;
      ValidFacts();
      if |key| > MAX_KEY_LEN || |data| > MAX_VALUE_LEN {
        return false;
      }
      WrittenRecords(key, data, ttl, ts, priority);
      ghost var a := Holding();
      PutNow(PutRecord(key, data, ttl, ts, priority), now, cooling);
      UpdateChecksOut(a, Holding(), PutRecord(key, data, ttl, ts, priority), policyTtl, now, maxRecs);
      return true;
    }

    /** Room is made for the record, it is logged, and the store compacts when that is due. */
    method PutNow(r: Record, now: nat, cooling: bool)
      requires Valid() && (reliable || !Full(|r.value|)) && Storable(r) && !r.IsDelete()
      requires Total(segs) + r.Size() <= MAX_OFFSET
      modifies `disk, `history, `writeBufPos, writeBuf, `active, `index, `indexOpen, `mutations, `currentSegment,
               `currentOffset, `deadSinceCompact, `segs, `lapsed, `inCooldown
      ensures reliable ==> Journal !in disk.files
      ensures Journal !in disk.files ==> Valid()
      ensures maxRecs > 0 && old(|index|) <= maxRecs ==> |index| <= maxRecs
      ensures reliable ==> !Due(|index|, deadSinceCompact)
      ensures old(Spares(r.key, |r.value|)) ==>
                && PutInto(old(Holding()), Holding(), currentSegment, r, maxRecs, policyTtl)
                && Logged(old(Holding()), Holding(), r, maxRecs, policyTtl)
                && |index| + deadSinceCompact == old(|index| + deadSinceCompact) + 1
                && currentSegment == old(Target(|r.value|))
      ensures reliable && !old(Full(|r.value|)) && !old(Spares(r.key, |r.value|)) ==>
                exists c :: PutInto(old(Holding()), c, old(Target(|r.value|)), r, maxRecs, policyTtl)
                            && Repacked(c, Holding())
      ensures reliable && old(Full(|r.value|)) && !(old(inCooldown) && cooling) ==>
                exists b, c :: Repacked(old(Holding()), b) && PutInto(b, c, 1, r, maxRecs, policyTtl)
                               && (c == Holding() || Repacked(c, Holding()))
      ensures reliable && !old(Spares(r.key, |r.value|)) && !(old(Full(|r.value|)) && old(inCooldown) && cooling) ==>
                InTime(segs, policyTtl, now)
      ensures old(history) <= history
      ensures Updated(old(Holding()), Holding(), r, policyTtl, now, maxRecs) && (old(Entire()) ==> Entire())
      ensures Guarded(history[|old(history)|..], segmentCount,
                      ClaimBefore(old(Holding()), Holding(), r, policyTtl, now, maxRecs),
                      ClaimAfter(old(Holding()), Holding(), r, policyTtl, now, maxRecs))
    {
      hide Valid, Complete, Guarded, Upkept, Tended, Logged, Updated, ClaimBefore, ClaimAfter, AtRest, SizeOf, LogOf,
           Total, IndexOf, ViewOf, Submap, Record.Size, Record.IsDelete, Repacked, InTime, PutInto, Due, LiveAfter;
      ghost var a := Holding();
      var _ := RotateIfNeeded(|r.value|, now, cooling);
      TendedSizes(a, Holding(), policyTtl, now, maxRecs);
      ghost var b, h1 := Holding(), history;
      LogPut(r);
      PutSize(b, Holding(), currentSegment, r, maxRecs, policyTtl);
      AppendedInTime(b.segs, currentSegment, r, policyTtl, now);
      ghost var c, h2 := Holding(), history;
      CompactIfThreshold(now);
      OperationDone(|old(history)|, h1, h2, history, segmentCount, a, b, c, Holding(), r, policyTtl, now, maxRecs);
    }

    /** Removes a key, whether it is there or not: a tombstone is logged either way. */
    method Remove(key: Bytes, junkTtl: Uint32, junkPriority: Byte, now: nat) returns (ok: bool)
      requires Valid()
      requires 1 <= |key| < 0x100
      requires Total(segs) + HEADER_SIZE + |key| + COMMIT_SIZE <= MAX_OFFSET
      modifies `disk, `history, `writeBufPos, writeBuf, `active, `index, `indexOpen, `mutations, `currentSegment,
               `currentOffset, `deadSinceCompact, `segs, `lapsed
      ensures reliable ==> Journal !in disk.files
      ensures Journal !in disk.files ==> Valid()
      ensures ok <==> |key| <= MAX_KEY_LEN
      ensures !ok ==> disk == old(disk) && history == old(history) && Holding() == old(Holding())
      ensures ok && reliable ==> !Due(|index|, deadSinceCompact)
      ensures ok ==>
                var r, rest := Tombstone(key, junkTtl, junkPriority), Without(old(index), key);
                var dead := old(deadSinceCompact) + if key in old(index) then 1 else 0;
                var c := Held(rest, Appended(old(segs), old(currentSegment), r), old(lapsed));
                && (!Due(|rest|, dead) ==>
                      && Holding() == c && Logged(old(Holding()), c, r, 0, policyTtl)
                      && deadSinceCompact == dead && currentSegment == old(currentSegment))
                && (reliable && Due(|rest|, dead) ==>
                      Repacked(c, Holding()) && InTime(segs, policyTtl, now) && currentSegment == 1)
      ensures old(history) <= history && (old(Entire()) ==> Entire()) && (old(AllCheckOut(segs)) ==> AllCheckOut(segs))
      ensures ok ==>
                var r := Tombstone(key, junkTtl, junkPriority);
                && Updated(old(Holding()), Holding(), r, policyTtl, now, maxRecs)
                && Guarded(history[|old(history)|..], segmentCount,
                           ClaimBefore(old(Holding()), Holding(), r, policyTtl, now, maxRecs),
                           ClaimAfter(old(Holding()), Holding(), r, policyTtl, now, maxRecs))
    {
      hide Valid, Complete, Guarded, Upkept, Tended, Logged, Updated, ClaimBefore, ClaimAfter, AtRest, SizeOf, LogOf,
           Total, Tombstone, RecordCrc, IndexOf, ViewOf, Submap, Record.IsDelete, Without, Repacked, InTime, Due,
           ChecksOut, AllCheckOut;
      ValidFacts();
      if |key| > MAX_KEY_LEN {
        return false;
      }
      WrittenRecords(key, [], junkTtl, 0, junkPriority);
      var r := Tombstone(key, junkTtl, junkPriority);
      ghost var a, h1 := Holding(), history;
      LogTombstone(r);
      ghost var c, h2 := Holding(), history;
      CompactIfThreshold(now);
      TendedSame(a, policyTtl, now, maxRecs);
      UpkeptNothing(h1, segmentCount, a, a, policyTtl, now, maxRecs);
      OperationDone(|old(history)|, h1, h2, history, segmentCount, a, a, c, Holding(), r, policyTtl, now, maxRecs);
      UpdateChecksOut(a, Holding(), r, policyTtl, now, maxRecs);
      return true;
    }

    /** An entry whose time is up is dropped on sight. */
    method DropLapsed(k: Key)
      requires Valid() && k in index
      modifies `index, `lapsed
      ensures Valid() && index == Without(old(index), k) && View() == Without(old(View()), k)
    {
      hide Clean, Puts, EncodeMutations, LogOf, IndexOf, Total, Settled, Replay, SizeOf;
      RemoveSize(index, k);
      DroppedView(index, LogOf(segs), k);
      index := index - {k};
      lapsed := lapsed + 1;
    }

    /** Fetches a value, or only its length when the caller passes no buffer. */
    method Get(key: Bytes, wantValue: bool, capacity: nat, now: nat) returns (ok: bool, out: Bytes, size: nat)
      requires Valid() && |key| < 0x100
      modifies `disk, `history, `writeBufPos, `index, `lapsed
      ensures Valid() && disk == old(disk)
      ensures ok <==> |key| <= MAX_KEY_LEN && key in old(View())
                      && (var r := old(View())[key];
                          var t := if r.ttl % TWO_24 > 0 then r.ttl % TWO_24 else policyTtl;
                          t == 0 || now < r.ts + t)
      ensures ok ==> size == |old(View())[key].value|
      ensures ok && wantValue ==> out == old(View())[key].value[..if size <= capacity then size else capacity]
      ensures View()
           == if |key| <= MAX_KEY_LEN && key in old(View()) && !ok then Without(old(View()), key) else old(View())
      ensures View() == old(View()) ==> lapsed == old(lapsed)
    {
      hide Clean, Puts, EncodeMutations, LogOf, Total, Settled, Replay, SizeOf, EntryOf, Fetch, Lapsed, Expired;
      ok, out, size := false, [], capacity;
      if |key| > MAX_KEY_LEN {
        return;
      }
      FlushIdle();
      if key !in index {
        return;
      }
      var e := index[key];
      EntryExpires(Final(LogOf(segs))[key], policyTtl, now);
      LapsedExactly(View()[key], policyTtl, now);
      if Expired(e, policyTtl, now) {
        DropLapsed(key);
        return;
      }
      var room := if wantValue then capacity else 0;
      CleanHolds(disk.files, segs);
      FetchIndexed(disk.files, segs, index, key, room);
      var name, off := Seg(e.segment), e.offset.Get();
      var got := if name in disk.files && off <= |disk.files[name]| then Fetch(disk.files[name][off..], room) else None;
      if got.Some? {
        ok, size, out := true, got.value.0, got.value.1;
      }
    }

    method Exists(key: Bytes, now: nat) returns (ok: bool)
      requires Valid() && |key| < 0x100
      modifies `index, `lapsed
      ensures Valid()
      ensures ok <==> |key| <= MAX_KEY_LEN && key in old(View())
                      && (var r := old(View())[key];
                          var t := if r.ttl % TWO_24 > 0 then r.ttl % TWO_24 else policyTtl;
                          t == 0 || now < r.ts + t)
      ensures View()
           == if |key| <= MAX_KEY_LEN && key in old(View()) && !ok then Without(old(View()), key) else old(View())
      ensures View() == old(View()) ==> lapsed == old(lapsed)
    {
      hide Clean, Puts, EncodeMutations, LogOf, Total, Settled, Replay, SizeOf, EntryOf, Lapsed, Expired;
      if |key| > MAX_KEY_LEN {
        return false;
      }
      if key !in index {
        return false;
      }
      var e := index[key];
      EntryExpires(Final(LogOf(segs))[key], policyTtl, now);
      LapsedExactly(View()[key], policyTtl, now);
      if Expired(e, policyTtl, now) {
        DropLapsed(key);
        return false;
      }
      return true;
    }

    method Size() returns (n: nat)
      requires Valid()
      ensures n == |View()|
    {
      SameSize(index, View());
      return |index|;
    }

    // ---------------------------------------------------------------- boot

    /** Reacts to the journal a previous session left.  Before `swap`, which only a committed copy has, cutting the
        recovery short and running it again recovers the same log. */
    method RecoverIfNeeded() returns (ghost swap: nat)
      requires segmentCount > 0
      modifies `disk, `history, `active, `index, `indexOpen, `mutations, `currentSegment
      ensures Recovered(old(disk.files), old(index), disk.files, index, segmentCount)
      ensures old(Steady(disk)) ==> Steady(disk)
      ensures old(history) <= history && |old(history)| <= swap <= |history|
      ensures forall i :: |old(history)| <= i < swap ==> SameRecovery(old(disk.files), history[i].files, segmentCount)
      ensures old(Steady(disk)) ==> forall i :: |old(history)| <= i < swap ==> Steady(history[i])
      ensures !Committed(old(disk.files)) ==> swap == |history|
      ensures Journal in disk.files <==>
                var j := JournalOf(old(disk.files));
                j.Some? && j.value.state != JOURNAL_COMMIT && j.value.nextSeg > 0 && CompactTmp !in old(disk.files)
      ensures CompactTmp in disk.files <==> CompactTmp in old(disk.files) && JournalOf(old(disk.files)).None?
      ensures Journal !in old(disk.files) ==> disk == old(disk)
    {
      hide SameRecovery, DecodeJournal, LogOf, SegsOf, Recovered, RecoverFiles;
      ghost var f, ix, n := disk.files, index, segmentCount;
      if Journal !in disk.files {
        NoJournalRecovered(f, index, n);
      } else {
        var j := JournalOf(disk.files);
        if j.None? {
          RerunForeign(f, n);
          ForeignRecovered(f, index, n);
          Step(disk.Remove(Journal));
        } else if j.value.state == JOURNAL_COMMIT {
          swap := FinishCommitted();
          RecoveryCleans(f, ix, disk.files, index, n);
          return;
        } else if j.value.nextSeg == 0 {
          RerunDiscard(f, n);
          DiscardRecovered(f, index, n);
          Step(disk.Remove(CompactTmp));
          Step(disk.Remove(Journal));
        } else {
          RenameRecovered(f, index, n, j.value.nextSeg);
          if CompactTmp in disk.files {
            RerunRename(f, n, j.value.nextSeg);
            Step(disk.Rename(CompactTmp, Seg(0)));
            Step(disk.Remove(Journal));
          }
        }
      }
      swap := |history|;
      RecoveryCleans(f, ix, disk.files, index, n);
    }

    method FinishCommitted() returns (ghost swap: nat)
      requires segmentCount > 0 && Committed(disk.files)
      modifies `disk, `history, `active, `index, `indexOpen, `mutations, `currentSegment
      ensures Recovered(old(disk.files), old(index), disk.files, index, segmentCount)
      ensures old(Steady(disk)) ==> Steady(disk)
      ensures old(history) <= history && |old(history)| <= swap <= |history|
      ensures forall i :: |old(history)| <= i < swap ==> SameRecovery(old(disk.files), history[i].files, segmentCount)
      ensures old(Steady(disk)) ==> forall i :: |old(history)| <= i < swap ==> Steady(history[i])
    {
      hide Recovered, RecoverFiles, Swapped, Scan, EncodeMutations, Replay, IndexOf, NoTombstones, DecodeJournal,
           SameRecovery;
      ghost var before, ix, from := disk, index, |history|;
      swap := FinalizeCompaction();
      forall i | from <= i < swap
        ensures SameRecovery(before.files, history[i].files, segmentCount)
        ensures Steady(before) ==> Steady(history[i])
      {
        RerunCommit(before.files, history[i].files, segmentCount);
        if Steady(before) {
          GoneSteady(before, history[i], segmentCount);
        }
      }
      CommitRecovered(before, ix, disk, index, mutations, segmentCount);
      CommitSettles(before, disk, segmentCount);
      Step(disk.Remove(Journal));
    }

    /** Scans every segment in order. */
    method ScanSegments()
      modifies `index
      ensures index == IndexOf(LogOf(SegsOf(disk.files, segmentCount)))
    {
      index := map[];
      ghost var all := SegsOf(disk.files, segmentCount);
      for seg := 0 to segmentCount
        invariant index == IndexOf(LogRange(all, 0, seg))
      {
        if Seg(seg) in disk.files {
          ReplaySegment(seg, disk.files[Seg(seg)], LogRange(all, 0, seg));
        } else {
          assert LogRange(all, 0, seg + 1) == LogRange(all, 0, seg) + Located(seg, []);
          assert LogRange(all, 0, seg + 1) == LogRange(all, 0, seg);
        }
      }
    }

    /** Scans every segment in order; the index file is rewritten to match. */
    method RebuildIndexFromSegments()
      modifies `disk, `history, `index, `indexOpen, `mutations
      ensures index == IndexOf(LogOf(SegsOf(disk.files, segmentCount)))
      ensures SameExcept(disk.files, old(disk.files), {IndexFile})
      ensures IndexFile in disk.files && disk.files[IndexFile] == EncodeMutations(mutations)
                && Replay(mutations) == index
      ensures old(history) <= history
      ensures forall i :: |old(history)| <= i < |history| ==> Rewriting(history[i], index, disk.files[IndexFile])
      ensures Steady(old(disk)) ==> Steady(disk)
    {
      hide EncodeMutations, Replay, Mutations, Rewriting, CrashImage, LogOf, IndexOf, SegsOf;
      ScanSegments();
      indexOpen := false;
      RewritingNothing(disk.Remove(IndexFile));
      Step(disk.Remove(IndexFile));
      WriteIndexBulk();
      SameSegsSameLog(disk.files, old(disk.files), segmentCount);
    }

    /** A boot whose index file is lost or not trusted.  Whatever disk a crash left, the index is that of the
        recovered log, and the new index file says so too; so from every crash-safe moment of a compaction the
        contents come back. */
    method RecoverAndRebuild() returns (ghost swap: nat)
      requires segmentCount > 0
      modifies `disk, `history, `active, `index, `indexOpen, `mutations, `currentSegment
      ensures index == IndexOf(RecoveredLog(old(disk.files), segmentCount))
      ensures index == IndexOf(LogOf(SegsOf(disk.files, segmentCount)))
      ensures WholeIndex(disk.files) && Replay(Mutations(disk.files[IndexFile])) == index
    {
      hide Mutations, EncodeMutations, Replay, LogOf, IndexOf, Scan;
      ghost var f := disk.files;
      swap := RecoverIfNeeded();
      ghost var g := disk.files;
      SameSegsSameLog(g, RecoverFiles(f, segmentCount), segmentCount);
      RebuildIndexFromSegments();
      SameSegsSameLog(disk.files, g, segmentCount);
      IndexFileReads(disk.files[IndexFile], mutations);
    }

    /** The index from its file, or else from the segments. */
    method LoadOrRebuild()
      modifies `disk, `history, `index, `indexOpen, `mutations
      ensures Reloaded(old(disk.files), old(index), disk.files, index, mutations, segmentCount)
      ensures old(Steady(disk)) ==> Steady(disk)
    {
      hide Settled, LogOf, IndexOf, Replay, EncodeMutations, Mutations;
      var loaded := LoadIndex();
      if !loaded {
        RebuildIndexFromSegments();
      }
    }

    /** Recovery and the index, for whatever disk there is. */
    method BootIndex()
      requires segmentCount > 0 && index == map[]
      modifies `disk, `history, `active, `index, `indexOpen, `mutations, `currentSegment
      ensures SameExcept(disk.files, RecoverFiles(old(disk.files), segmentCount), {IndexFile}) && !Committed(disk.files)
      ensures IndexFile in disk.files && mutations == Mutations(disk.files[IndexFile])
      ensures CopiesPuts(old(disk.files)) ==>
                index == Loaded(old(disk.files), segmentCount) && Replay(mutations) == index
      ensures old(Bootable(disk, segmentCount)) ==>
                && SegsOf(disk.files, segmentCount) == old(SegsOf(RecoverFiles(disk.files, segmentCount), segmentCount))
                && Agree(segmentCount, disk, SegsOf(disk.files, segmentCount), mutations)
                && index == old(Loaded(disk.files, segmentCount)) == Replay(mutations)
    {
      hide Recovered, Reloaded, RecoverFiles, Settled, LogOf, IndexOf, Replay, Mutations, Loaded, CopiesPuts, Agree;
      ghost var d, n := disk, segmentCount;
      var _ := RecoverIfNeeded();
      ghost var g, ix := disk.files, index;
      LoadOrRebuild();
      BootLoaded(d.files, g, ix, disk.files, index, mutations, n);
      if Bootable(d, n) {
        BootAgrees(d, g, ix, disk, index, mutations, n);
      }
    }

    /** Enforces the record limit on the loaded index; when it evicts, the index file is rewritten to say so. */
    method PruneAtBoot()
      requires IndexFile in disk.files && mutations == Mutations(disk.files[IndexFile])
      modifies `disk, `history, `index, `mutations, `deadSinceCompact
      ensures PrunedTo(old(index), index, maxRecs, policyTtl)
      ensures deadSinceCompact + |index| == old(deadSinceCompact + |index|)
      ensures IndexFile in disk.files && mutations == Mutations(disk.files[IndexFile])
      ensures old(Replay(mutations) == index) ==> Replay(mutations) == index
      ensures old(Replay(mutations) == index && Stored()) ==> Stored()
      ensures old(history) <= history
      ensures forall i :: |old(history)| <= i < |history| ==> Rewriting(history[i], index, disk.files[IndexFile])
      ensures SameExcept(disk.files, old(disk.files), {IndexFile})
      ensures maxRecs == 0 || |old(index)| <= maxRecs ==>
                disk == old(disk) && mutations == old(mutations) && index == old(index)
    {
      hide BottomSet, Replay, EncodeMutations, Mutations, Agree, Rewriting;
      ghost var before, ms, ix := disk, mutations, index;
      var pruned := PruneIndex();
      if pruned > 0 {
        RewritingNothing(disk.Remove(IndexFile));
        Step(disk.Remove(IndexFile));
        WriteIndexBulk();
        IndexFileReads(disk.files[IndexFile], mutations);
        if Replay(ms) == ix && Agree(segmentCount, before, segs, ms) {
          LessAgrees(segmentCount, before, disk, segs, ms, mutations);
        }
      }
    }

    /** What the disk of a closed store boots to. */
    lemma DiskShows()
      requires Consistent()
      ensures 2 <= segmentCount <= MAX_SEGMENTS && Bootable(disk, segmentCount)
      ensures SegsOf(RecoverFiles(disk.files, segmentCount), segmentCount) == segs
      ensures Loaded(disk.files, segmentCount) == Replay(mutations)
      ensures var all := ViewOf(Replay(mutations), LogOf(segs));
        Submap(View(), all) && |all| == |Replay(mutations)| && (all == View() <==> index == Replay(mutations))
    {
      hide Agree, Counted, Bootable, Loaded, RecoverFiles, Replay, LogOf, ViewOf, Submap;
      ReopenShows(disk, segmentCount, segs, mutations, index, deadSinceCompact, lapsed);
    }

    /** Flushes and closes both files. */
    method Close()
      requires Valid()
      modifies `disk, `history, `writeBufPos, `indexOpen, `active
      ensures disk == old(disk) && history == old(history) && active == Closed && !indexOpen && writeBufPos == 0
    {
      FlushIdle();
      indexOpen := false;
      active := Closed;
    }

    /** Opens a store over whatever disk there is.  The index is what was on disk, the record limit enforced, and the
        next boot will load the same.  Over a disk whose recovered segments are whole, and whose index file says what
        they do, every record is back. */
    method Init()
      requires 2 <= segmentCount <= MAX_SEGMENTS && index == map[] && deadSinceCompact == 0
      requires writeBuf.Length == BUFFER_SIZE && writeBufPos == 0
      modifies `disk, `history, `active, `index, `indexOpen, `mutations, `currentSegment, `currentOffset,
               `deadSinceCompact, `segs, `lapsed
      ensures Opened() && SegsOf(disk.files, segmentCount) == segs
           == old(SegsOf(RecoverFiles(disk.files, segmentCount), segmentCount))
      ensures currentSegment == 0 || Seg(currentSegment) in old(RecoverFiles(disk.files, segmentCount))
      ensures old(CopiesPuts(disk.files)) ==>
                && PrunedTo(old(Loaded(disk.files, segmentCount)), index, maxRecs, policyTtl)
                && index == Loaded(disk.files, segmentCount) && CopiesPuts(disk.files)
      ensures old(Bootable(disk, segmentCount)) ==>
                && Valid()
                && Trimmed(ViewOf(old(Loaded(disk.files, segmentCount)), LogOf(segs)), View(), maxRecs, policyTtl)
                && (maxRecs == 0 || |old(Loaded(disk.files, segmentCount))| <= maxRecs ==>
                      index == old(Loaded(disk.files, segmentCount)))
                && index == Replay(mutations)
    {
      hide Bootable, RecoverFiles, LogOf, IndexOf, Replay, Mutations, Loaded, CopiesPuts, Agree, Counted, PrunedTo,
           Trimmed, ViewOf, Total, SegsOf, SameExcept, Committed;
      LoadIndexAtBoot();
      ghost var loaded := disk;
      OpenLoaded();
      BootAgain(loaded, currentSegment, index, mutations, segmentCount);
      TouchedSegs(loaded, currentSegment, segmentCount);
    }

    /** Everything a boot does before it opens the files for appending. */
    method LoadIndexAtBoot()
      requires 2 <= segmentCount <= MAX_SEGMENTS && index == map[] && deadSinceCompact == 0
      modifies `disk, `history, `active, `index, `indexOpen, `mutations, `currentSegment, `deadSinceCompact, `segs,
               `lapsed
      ensures SegsOf(disk.files, segmentCount) == segs
           == old(SegsOf(RecoverFiles(disk.files, segmentCount), segmentCount))
      ensures IndexFile in disk.files && mutations == Mutations(disk.files[IndexFile]) && !Committed(disk.files)
      ensures forall i {:trigger Seg(i)} :: Seg(i) in disk.files <==>
                Seg(i) in old(RecoverFiles(disk.files, segmentCount))
      ensures old(CopiesPuts(disk.files)) ==>
                PrunedTo(old(Loaded(disk.files, segmentCount)), index, maxRecs, policyTtl) && Replay(mutations) == index
      ensures old(Bootable(disk, segmentCount)) ==>
                && Consistent()
                && Trimmed(ViewOf(old(Loaded(disk.files, segmentCount)), LogOf(segs)), View(), maxRecs, policyTtl)
                && (maxRecs == 0 || |old(Loaded(disk.files, segmentCount))| <= maxRecs ==>
                      index == old(Loaded(disk.files, segmentCount)))
                && index == Replay(mutations)
    {
      hide Bootable, RecoverFiles, LogOf, IndexOf, Replay, Mutations, Loaded, CopiesPuts, Agree, Counted, BottomSet,
           Trimmed, ViewOf, SegsOf, SameExcept, Puts, Committed;
      ghost var d, n := disk, segmentCount;
      BootIndex();
      ghost var booted, ix, ms := disk, index, mutations;
      segs := SegsOf(disk.files, n);
      PruneAtBoot();
      lapsed := if Puts(LogOf(segs)) >= |ix| then Puts(LogOf(segs)) - |ix| else 0;
      BootSegs(RecoverFiles(d.files, n), booted.files, n);
      BootSegs(booted.files, disk.files, n);
      SameSegNames(RecoverFiles(d.files, n), booted.files, disk.files);
      CommittedSame(booted.files, disk.files);
      if Bootable(d, n) {
        FileIsPart(n, booted, segs, ms);
        BootCounts(ix, index, mutations, segs, deadSinceCompact, lapsed);
        PrunedTrims(ix, index, LogOf(segs), maxRecs, policyTtl);
      }
    }

    /** The newest segment there is, or the first, is open for appending, and so is the index file. */
    ghost predicate Opened()
      reads `writeBuf, `writeBufPos, `indexOpen, `active, `currentSegment, `disk, `currentOffset
    {
      && Idle() && active == At(currentSegment) && currentSegment < segmentCount && Seg(currentSegment) in disk.files
      && currentOffset == |disk.files[Seg(currentSegment)]|
      && forall i :: currentSegment < i < segmentCount ==> Seg(i) !in disk.files
    }

    /** With the index loaded, the files are opened for appending. */
    method OpenLoaded()
      requires 2 <= segmentCount && writeBuf.Length == BUFFER_SIZE && writeBufPos == 0 && IndexFile in disk.files
      modifies `disk, `history, `active, `indexOpen, `currentSegment, `currentOffset
      ensures Opened() && disk == old(disk).Touch(Seg(currentSegment))
      ensures currentSegment == 0 || Seg(currentSegment) in old(disk.files)
      ensures old(Consistent()) ==> Valid()
    {
      hide Agree, Counted, SizeOf;
      OpenIndexForAppend();
      var resume := LastSegment();
      if Consistent() {
        SegmentsAgree(segmentCount, disk, segs, mutations);
      }
      OpenSegment(resume);
    }

    /** The last segment there is, or the first. */
    method LastSegment() returns (resume: nat)
      requires segmentCount > 0
      ensures resume < segmentCount && (resume == 0 || Seg(resume) in disk.files)
      ensures forall j :: resume < j < segmentCount ==> Seg(j) !in disk.files
    {
      resume := 0;
      for i := 0 to segmentCount
        invariant resume < segmentCount && (resume == 0 || Seg(resume) in disk.files)
        invariant forall j :: resume < j < i ==> Seg(j) !in disk.files
      {
        if Seg(i) in disk.files {
          resume := i;
        }
      }
    }

    /** Empties the store, whatever state it is in: the segments go in ascending order, then the index file.  A journal
        and its copy stay; what was open is opened again. */
    method Clear()
      requires 2 <= segmentCount <= MAX_SEGMENTS && writeBuf.Length == BUFFER_SIZE && writeBufPos == 0
      modifies `disk, `history, `active, `index, `indexOpen, `mutations, `currentSegment, `currentOffset, `writeBufPos,
               `deadSinceCompact, `segs, `lapsed
      ensures index == map[] && segs == Compacted(segmentCount, []) && View() == map[] && mutations == []
      ensures deadSinceCompact == 0 && lapsed == 0 && currentSegment == 0 && currentOffset == 0 && writeBufPos == 0
      ensures Wiped(old(disk.files), disk.files, segmentCount) && indexOpen == old(indexOpen)
      ensures IndexFile in disk.files <==> indexOpen
      ensures old(Steady(disk) && Journal !in disk.files && indexOpen && !active.Closed?) ==> Valid() && Entire()
      ensures old(history) <= history
      ensures old(Consistent()) ==>
                var p := Claim(Contents(LogOf(old(segs))), {});
                Guarded(history[|old(history)|..], segmentCount, p, p)
    {
      hide Agree, Counted, Guarded, Contents, LogOf, Complete, Settled, Wiped, Compacted, SizeOf, ViewOf, ClearedDisk;
      ghost var before, from, was, ms, n := disk, |history|, segs, mutations, segmentCount;
      ghost var whole, index0, active0 := Consistent(), indexOpen, !active.Closed?;
      FlushIdle();
      Forget();
      ClearFiles();
      ClearingLeaves(before, n, index0, active0);
      EmptyStore(n);
      EmptyView(LogOf(segs));
      if Steady(before) && Journal !in before.files && index0 {
        ClearedAgrees(before, n, active0);
      }
      if whole {
        ClearGuards(n, before, was, ms, history, from);
      }
    }

    method ClearFiles()
      requires 2 <= segmentCount <= MAX_SEGMENTS && currentSegment == 0 && currentOffset == 0
      modifies `disk, `history, `active, `indexOpen, `currentSegment, `currentOffset
      ensures disk == ClearedDisk(old(disk), segmentCount, indexOpen, !old(active).Closed?)
                && indexOpen == old(indexOpen)
      ensures active == if old(active).Closed? then Closed else At(0)
      ensures currentSegment == 0 && currentOffset == 0
      ensures |old(history)| + segmentCount <= |history| && old(history) <= history
      ensures forall i :: |old(history)| <= i < |history| ==>
                if i < |old(history)| + segmentCount then history[i] == WithoutFirst(old(disk), i - |old(history)| + 1)
                else Wiped(old(disk.files), history[i].files, segmentCount)
    {
      hide Settled, Agree, Counted, SizeOf, Wiped, SegsGone, WithoutFirst, Stored;
      ghost var before, n := disk, segmentCount;
      RemoveSegments();
      ClearingLeaves(before, n, false, false);
      ClearingLeaves(before, n, indexOpen, false);
      ClearingLeaves(before, n, indexOpen, !active.Closed?);
      Step(disk.Remove(IndexFile));
      if indexOpen {
        OpenIndexForAppend();
      }
      if !active.Closed? {
        OpenSegment(0);
      }
    }

    method Forget()
      modifies `index, `mutations, `currentSegment, `currentOffset, `writeBufPos, `deadSinceCompact, `segs, `lapsed
      ensures index == map[] && mutations == [] && segs == Compacted(segmentCount, [])
      ensures deadSinceCompact == 0 && lapsed == 0 && currentSegment == 0 && currentOffset == 0 && writeBufPos == 0
    {
      index := map[];
      deadSinceCompact, currentSegment, currentOffset, writeBufPos := 0, 0, 0, 0;
      segs, mutations, lapsed := Compacted(segmentCount, []), [], 0;
    }
  }

  /** A store over an empty disk, opened for the first time. */
  method OpenOnEmptyDisk(segmentSize: nat, segmentCount: nat, reliable: bool) returns (store: FileStore)
    requires 2 <= segmentCount <= MAX_SEGMENTS
    ensures fresh(store) && fresh(store.writeBuf) && store.Valid() && store.View() == map[] && store.index == map[]
    ensures store.segmentSize == segmentSize && store.segmentCount == segmentCount && store.reliable == reliable
    ensures Total(store.segs) == 0 && store.policyTtl == 0 && store.maxRecs == 0
    ensures store.segs == Compacted(segmentCount, []) && store.currentSegment == 0 == store.currentOffset
    ensures store.deadSinceCompact == 0 && LogOf(store.segs) == [] && store.Entire() && AllCheckOut(store.segs)
  {
    hide FileStore.Consistent, FileStore.View, Clean, LogOf, Total, IndexOf, Counted, Trimmed, Bootable, Loaded,
         CopiesPuts, SegsOf, RecoverFiles, Compacted, SizeOf;
    store := new FileStore(segmentSize, segmentCount, reliable, Disk(map[], map[]));
    NothingOnDisk(segmentCount);
    store.Init();
    EmptyView(LogOf(store.segs));
    NothingToCheck(store.segs);
    store.NothingStored();
  }

  /** A store with one record that never expires. */
  method OpenWithOneRecord(key: Bytes, data: Bytes, ts: Uint32, now: nat) returns (store: FileStore)
    requires 1 <= |key| <= MAX_KEY_LEN && |data| <= MAX_VALUE_LEN
    ensures fresh(store) && store.Valid() && store.View() == map[key := PutRecord(key, data, 0, ts, 0)]
    ensures store.segmentCount == 2 && store.reliable && store.policyTtl == 0 && store.maxRecs == 0
  {
    hide Agree, Counted, Guarded, ClaimBefore, ClaimAfter, LogOf, Total, PutRecord, IndexOf, ViewOf, AllCheckOut,
         InTime, Repacked, PutInto;
    store := OpenOnEmptyDisk(0x1_0000, 2, true);
    ghost var a := store.Holding();
    var _ := store.Put(key, data, 0, ts, 0, now, false);
    WrittenRecords(key, data, 0, ts, 0);
    OnlyRecord(a, store.Holding(), PutRecord(key, data, 0, ts, 0), now);
  }

  /** That store, compacted, and a power cut between the rename and the clearing of the journal: recovery leaves
      nothing, although nothing had expired and the device never ran out of room. */
  method CutAfterRename(key: Bytes, data: Bytes, ts: Uint32, now: nat) returns (store: FileStore, ghost cut: nat)
    requires 1 <= |key| <= MAX_KEY_LEN && |data| <= MAX_VALUE_LEN
    ensures fresh(store) && Contents(LogOf(store.segs)) == map[key := PutRecord(key, data, 0, ts, 0)]
    ensures cut < |store.history| && CrashImage(store.history[cut], store.history[cut].files)
    ensures Contents(RecoveredLog(store.history[cut].files, store.segmentCount)) == map[]
  {
    hide FileStore.Consistent, ViewOf, Contents, LogOf, PutRecord, RecordCrc, RecoveredLog, CrashImage, Everlasting;
    store := OpenWithOneRecord(key, data, ts, now);
    WrittenRecords(key, data, 0, ts, 0);
    OneEverlasting(PutRecord(key, data, 0, ts, 0));
    cut := CompactEverlasting(store, now);
  }

  /** A compaction that keeps everything, and the moment of its rename. */
  method CompactEverlasting(store: FileStore, now: nat) returns (ghost cut: nat)
    requires store.Consistent() && store.segmentCount == 2 && store.reliable
    requires store.policyTtl == 0 && store.maxRecs == 0 && Everlasting(store.View(), 0)
    modifies store
    ensures Contents(LogOf(store.segs)) == old(store.View())
    ensures cut < |store.history| && CrashImage(store.history[cut], store.history[cut].files)
    ensures Contents(RecoveredLog(store.history[cut].files, 2)) == map[]
  {
    hide FileStore.Consistent, FileStore.Compactable, ViewOf, Contents, LogOf, Total, IndexOf, Sweep.Sound, Sweep.All,
         Compacted, CompactionTrace, Checkpoints, PrunedTo, Unexpired, Found, Final, Submap, RecoveredLog, CrashImage,
         Everlasting;
    ghost var a, before := store.Holding(), |store.history|;
    store.ConsistentFacts();
    store.ConsistentIsCompactable();
    var _, pruned, sw, swap := store.Compact(now);
    AllFound(a.index, pruned, a.segs, 0, now, 0);
    KeepsEverlasting(a, pruned, sw, Contents(LogOf(store.segs)), now);
    SwapLoses(sw, store.history, before, swap, 2);
    cut := swap;
  }

  /** A remove of a key that is not there, a put, and a compaction whose power is cut when the first segment has been
      copied and deleted.  Recovery has the record, and a scan would find it, but the next boot keeps the old index
      file: its entry names the place the record had behind the tombstone, which is behind the end of the file. */
  method CutWhileCopying(gone: Bytes, key: Bytes, data: Bytes, ts: Uint32, now: nat)
    returns (store: FileStore, ghost cut: nat)
    requires 1 <= |key| && |key| + |data| < |gone| <= MAX_KEY_LEN
    ensures cut < |store.history|
    ensures var files := store.history[cut].files;
      && CrashImage(store.history[cut], files)
      && Contents(RecoveredLog(files, 2)) == map[key := PutRecord(key, data, 0, ts, 0)]
      && key in Loaded(files, 2) && key in IndexOf(RecoveredLog(files, 2))
      && Loaded(files, 2)[key] != IndexOf(RecoveredLog(files, 2))[key]
      && var f, e := RecoverFiles(files, 2), Loaded(files, 2)[key];
         Seg(e.segment) in f && e.offset.Get() > |f[Seg(e.segment)]|
  {
    hide FileStore.Consistent, FileStore.Compactable, Sweep.Sound, PrunedTo, Unexpired, Found, PutRecord, Tombstone,
         RecordCrc, Contents, RecoveredLog, Loaded, RecoverFiles, IndexOf, CompactionTrace, Checkpoints, CrashImage,
         EntryOf;
    ghost var t, r := Tombstone(gone, 0, 0), PutRecord(key, data, 0, ts, 0);
    WrittenRecords(gone, [], 0, 0, 0);
    WrittenRecords(key, data, 0, ts, 0);
    store := OpenWithTwoRecords(gone, key, data, ts, now);
    ghost var a, ms, from, start := store.Holding(), store.mutations, |store.history|, store.disk.files;
    var ok;
    ghost var pruned, sw, swap;
    store.ConsistentFacts();
    store.ConsistentIsCompactable();
    ok, pruned, sw, swap := store.Compact(now);
    AllFound(a.index, pruned, a.segs, 0, now, 0);
    OnlyKept(a.index, pruned, sw, t, r, ms, now);
    cut := FirstCheckpoint(sw, store.history, from, start, t, r, ms);
  }

  /** A tombstone with a record behind it, and nothing else. */
  method OpenWithTwoRecords(gone: Bytes, key: Bytes, data: Bytes, ts: Uint32, now: nat) returns (store: FileStore)
    requires 1 <= |key| && |key| + |data| < |gone| <= MAX_KEY_LEN
    ensures fresh(store) && store.Valid() && store.segmentCount == 2 && store.reliable
    ensures store.policyTtl == 0 && store.maxRecs == 0
    ensures var t, r := Tombstone(gone, 0, 0), PutRecord(key, data, 0, ts, 0);
      && store.segs == [[t, r], []] && store.index.Keys == {key}
      && IndexFile in store.disk.files && store.disk.files[IndexFile] == EncodeMutations(store.mutations)
      && Submap(store.index, Replay(store.mutations)) && Total(store.segs) <= MAX_OFFSET
  {
    hide FileStore.Consistent, ViewOf, LogOf, Total, IndexOf, PutRecord, Tombstone, RecordCrc, Guarded, ClaimBefore,
         ClaimAfter, Updated, Complete, EntryOf, SizeOf, Replay, EncodeMutations, FileStore.Ready, Compacted,
         Appended, Logged, Repacked, PutInto, Without, Due, LiveAfter, DeadAfter, Submap, AllCheckOut, ChecksOut,
         InTime, FileStore.Entire;
    ghost var t, r := Tombstone(gone, 0, 0), PutRecord(key, data, 0, ts, 0);
    WrittenRecords(gone, [], 0, 0, 0);
    WrittenRecords(key, data, 0, ts, 0);
    store := OpenOnEmptyDisk(0x1_0000, 2, true);
    EmptySegments();
    NothingDue(store.index, key, gone);
    ghost var before := store.Holding();
    var _ := store.Remove(gone, 0, 0, now);
    ghost var a := store.Holding();
    LoggedSize(before, a, t, 0, 0);
    store.ReadyFacts();
    assert store.Spares(key, |data|);
    var _ := store.Put(key, data, 0, ts, 0, now, false);
    PutBehind(a, store.Holding(), t, r);
    store.ConsistentFacts();
  }
}
