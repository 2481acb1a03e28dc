/** The vocabulary of the store's contracts, and the facts its methods rest on. */
module StoreSpec {
  import opened Bytes
  import opened Records
  import opened Logs
  import opened Disks
  import opened IndexLog
  import opened Compaction
  import opened Eviction
  import opened Sets
  import opened CopyOrder

  /** A segment file holds exactly the encoding of `rs`, or is missing and `rs` is empty. */
  ghost predicate SegmentIs(files: Files, i: nat, rs: seq<Record>) {
    && AllStorable(rs)
    && (if Seg(i) in files then files[Seg(i)] == EncodeAll(rs) else rs == [])
  }

  ghost predicate Clean(files: Files, segs: Segs) {
    forall i :: 0 <= i < |segs| ==> SegmentIs(files, i, segs[i])
  }

  /** What the segments and the index file of `n` segments say to each other. */
  ghost predicate AgreeOn(n: nat, files: Files, segs: Segs, ms: seq<Mutation>) {
    && 2 <= n <= MAX_SEGMENTS && |segs| == n
    && Clean(files, segs) && Total(segs) <= MAX_OFFSET
    && IndexFile in files && files[IndexFile] == EncodeMutations(ms)
    && Submap(Replay(ms), IndexOf(LogOf(segs)))
  }

  ghost predicate Agree(n: nat, d: Disk, segs: Segs, ms: seq<Mutation>) {
    AgreeOn(n, d.files, segs, ms) && Journal !in d.files && Steady(d)
  }

  /** The index file has every entry of the scan.  It has fewer after a boot at which a record limit evicted. */
  ghost predicate Complete(ms: seq<Mutation>, segs: Segs) {
    Replay(ms) == IndexOf(LogOf(segs))
  }

  /** The index is a part of what the index file replays to and of the scanned one, and every put record is live, dead
      or lapsed. */
  ghost predicate Counted(ix: Index, ms: seq<Mutation>, segs: Segs, dead: nat, lapsed: nat) {
    && Submap(ix, Replay(ms)) && Submap(ix, IndexOf(LogOf(segs)))
    && Puts(LogOf(segs)) == |ix| + dead + lapsed
  }

  /** A record is on disk behind segment `cur`, and its mutation is not yet. */
  ghost predicate Staged(n: nat, d: Disk, segs: Segs, cur: nat, off: nat, r: Record, ms: seq<Mutation>) {
    && 2 <= n <= MAX_SEGMENTS && |segs| == n && cur < n && off == SizeOf(segs[cur])
    && Clean(d.files, Appended(segs, cur, r)) && Total(Appended(segs, cur, r)) <= MAX_OFFSET
    && IndexFile in d.files && d.files[IndexFile] == EncodeMutations(ms) && Journal !in d.files && Steady(d)
    && Submap(Replay(ms + [MutationOf(cur, off, r)]), IndexOf(LogOf(Appended(segs, cur, r))))
    && Seg(cur) in d.files && forall i :: cur < i < n ==> Seg(i) !in d.files
  }

  lemma SegmentScans(files: Files, i: nat, rs: seq<Record>)
    requires SegmentIs(files, i, rs)
    ensures SegRecs(files, i) == rs
  {
    if Seg(i) in files {
      ScanRoundTrip(rs, []);
      assert EncodeAll(rs) + [] == EncodeAll(rs);
    }
  }

  lemma CleanScans(files: Files, segs: Segs)
    requires Clean(files, segs)
    ensures SegsOf(files, |segs|) == segs
  {
    forall i | 0 <= i < |segs|
      ensures SegRecs(files, i) == segs[i]
    {
      SegmentScans(files, i, segs[i]);
    }
  }

  /** The time-to-live test: a record's own ttl, or else the store's; 0 means none. */
  predicate IsTtlExpired(ts: Uint32, ttl: nat, policyTtl: nat, now: nat) {
    var effective := if ttl > 0 then ttl else policyTtl;
    effective > 0 && now > ts && now - ts >= effective
  }

  predicate Expired(e: Entry, policyTtl: nat, now: nat) {
    IsTtlExpired(e.ts, e.ttl.Get(), policyTtl, now)
  }

  function Unexpired(ix: Index, policyTtl: nat, now: nat): Index {
    map k | k in ix && !Expired(ix[k], policyTtl, now) :: ix[k]
  }

  /** All the bytes a list of segments takes. */
  function Total(segs: Segs): nat {
    SizeOf(Recs(LogOf(segs)))
  }

  lemma {:induction false} SizeOfConcat(a: seq<Record>, b: seq<Record>)
    ensures SizeOf(a + b) == SizeOf(a) + SizeOf(b)
    decreases |b|
  {
    if b == [] {
      assert a + b == a;
    } else {
      assert (a + b)[..|a + b| - 1] == a + b[..|b|-1];
      SizeOfConcat(a, b[..|b|-1]);
    }
  }

  lemma RecsConcat(a: seq<Loc>, b: seq<Loc>)
    ensures Recs(a + b) == Recs(a) + Recs(b)
  {
  }

  lemma RecsLocated(seg: nat, rs: seq<Record>)
    ensures Recs(Located(seg, rs)) == rs
  {
  }

  lemma {:induction false} SegmentWithinTotal(segs: Segs, i: nat)
    requires i < |segs|
    ensures SizeOf(segs[i]) <= Total(segs)
  {
    var n := |segs|;
    LogRangeSplit(segs, 0, i + 1, n);
    var a, m, b := LogRange(segs, 0, i), Located(i, segs[i]), LogRange(segs, i + 1, n);
    assert LogRange(segs, 0, i + 1) == a + m;
    RecsConcat(a + m, b);
    RecsConcat(a, m);
    SizeOfConcat(Recs(a + m), Recs(b));
    SizeOfConcat(Recs(a), Recs(m));
    RecsLocated(i, segs[i]);
  }

  lemma {:induction false} LiveFits(log: seq<Loc>, keep: Index)
    ensures SizeOf(Recs(Live(log, keep))) <= SizeOf(Recs(log))
    decreases |log|
  {
    if log != [] {
      var n := |log| - 1;
      LiveFits(log[..n], keep);
      assert log == log[..n] + [log[n]];
      RecsConcat(log[..n], [log[n]]);
      assert Recs([log[n]]) == [log[n].rec];
      assert Recs(log)[..n] == Recs(log[..n]);
      var live := Live(log[..n], keep);
      RecsConcat(live, [log[n]]);
      assert (Recs(live) + [log[n].rec])[..|live|] == Recs(live);
    }
  }

  /** A log that fits the offset field as a whole is addressable. */
  lemma FittingIsAddressable(segs: Segs)
    requires |segs| <= 256 && Total(segs) <= MAX_OFFSET
    ensures Addressable(LogOf(segs))
  {
    forall i | 0 <= i < |segs|
      ensures SizeOf(segs[i]) <= MAX_OFFSET
    {
      SegmentWithinTotal(segs, i);
    }
    LogRangeAddressable(segs, 0, |segs|);
  }

  /** The segments after a compaction: everything kept, in segment 0. */
  function Compacted(n: nat, rs: seq<Record>): (s: Segs)
    ensures |s| == n
  {
    seq(n, i => if i == 0 then rs else [])
  }

  lemma EmptySegments()
    ensures Compacted(2, []) == [[], []]
  {
  }

  lemma CompactedIsLocated(n: nat, rs: seq<Record>)
    requires 0 < n
    ensures LogOf(Compacted(n, rs)) == Located(0, rs)
    ensures Total(Compacted(n, rs)) == SizeOf(rs)
  {
    var s := Compacted(n, rs);
    LogFromSegZero(s, s, rs, n);
    RecsLocated(0, rs);
    assert LogRange(s, n, n) == [];
    assert Located(0, rs) + [] == Located(0, rs);
  }

  /** How many put records a log holds. */
  function Puts(log: seq<Loc>): nat {
    if log == [] then 0
    else Puts(log[..|log|-1]) + if log[|log|-1].rec.IsDelete() then 0 else 1
  }

  lemma {:induction false} LiveAddressable(log: seq<Loc>, keep: Index)
    requires Addressable(log)
    ensures Addressable(Live(log, keep))
    decreases |log|
  {
    if log != [] {
      var n := |log| - 1;
      LiveAddressable(log[..n], keep);
      LiveMembers(log[..n], keep);
      var live := Live(log[..n], keep);
      forall i | 0 <= i < |live|
        ensures live[i].seg != log[n].seg || live[i].off != log[n].off
      {
        assert live[i] in log[..n];
      }
    }
  }

  /** The copy holds one record per kept key, and none of them is a tombstone. */
  lemma OneRecordPerKey(sw: Sweep)
    requires sw.Sound()
    ensures forall i, j :: 0 <= i < j < |sw.All()| ==> sw.All()[i].key != sw.All()[j].key
    ensures forall i :: 0 <= i < |sw.All()| ==> !sw.All()[i].IsDelete()
    ensures forall i :: 0 <= i < |sw.All()| ==> sw.All()[i].key in sw.keep
  {
    var log := sw.Log();
    var live := Live(log, sw.keep);
    LiveAddressable(log, sw.keep);
    LiveMembers(log, sw.keep);
    forall i | 0 <= i < |live|
      ensures live[i].rec.key in sw.keep && live[i].rec.key in Final(log) && live[i] == Final(log)[live[i].rec.key]
      ensures !live[i].rec.IsDelete()
    {
      assert live[i] in live;
      KeptIsFinal(log, sw.keep, live[i]);
      FinalIsLast(log, live[i].rec.key);
    }
  }

  /** A log of put records with distinct keys denotes one entry per record. */
  lemma {:induction false} DistinctLog(log: seq<Loc>)
    requires forall i, j :: 0 <= i < j < |log| ==> log[i].rec.key != log[j].rec.key
    requires forall i :: 0 <= i < |log| ==> !log[i].rec.IsDelete()
    ensures |Final(log)| == |log| && Puts(log) == |log|
    ensures forall k :: k in Final(log) <==> exists i :: 0 <= i < |log| && log[i].rec.key == k
    decreases |log|
  {
    hide Record.IsDelete;
    if log != [] {
      var n := |log| - 1;
      DistinctLog(log[..n]);
      assert log[n].rec.key !in Final(log[..n]);
    }
  }

  /** Each of its records is the final one of its key. */
  lemma {:induction false} DistinctFinal(log: seq<Loc>, i: nat)
    requires forall i, j :: 0 <= i < j < |log| ==> log[i].rec.key != log[j].rec.key
    requires forall i :: 0 <= i < |log| ==> !log[i].rec.IsDelete()
    requires i < |log|
    ensures log[i].rec.key in Final(log) && Final(log)[log[i].rec.key] == log[i]
    decreases |log|
  {
    hide Record.IsDelete;
    if i < |log| - 1 {
      DistinctFinal(log[..|log| - 1], i);
    }
  }

  /** `rs` has one record for each key of `v`, the one `v` has. */
  ghost predicate OneEach(rs: seq<Record>, v: map<Key, Record>) {
    && |rs| == |v|
    && (forall i :: 0 <= i < |rs| ==> rs[i].key in v && v[rs[i].key] == rs[i])
    && forall i, j :: 0 <= i < j < |rs| ==> rs[i].key != rs[j].key
  }

  /** The copy lists the kept records. */
  lemma CopyHasOneEach(sw: Sweep)
    requires sw.Sound()
    ensures OneEach(sw.All(), Contents(Located(0, sw.All())))
  {
    hide Sweep.Sound, Sweep.All, Puts, Final;
    var log := Located(0, sw.All());
    OneRecordPerKey(sw);
    DistinctLog(log);
    SameSize(Contents(log), Final(log));
    forall i | 0 <= i < |log|
      ensures log[i].rec == sw.All()[i]
      ensures log[i].rec.key in Final(log) && Final(log)[log[i].rec.key] == log[i]
    {
      DistinctFinal(log, i);
    }
  }

  lemma CompactedKeys(sw: Sweep)
    requires sw.Sound()
    ensures var log := Located(0, sw.All());
      Final(log).Keys == sw.keep.Keys && |Final(log)| == |sw.All()| == Puts(log)
  {
    hide Sweep.Sound, Sweep.All;
    var log := Located(0, sw.All());
    OneRecordPerKey(sw);
    DistinctLog(log);
    forall k | k in Final(log)
      ensures k in sw.keep
    {
      var i :| 0 <= i < |log| && log[i].rec.key == k;
      assert sw.All()[i].key in sw.keep;
    }
    CopyAlone(sw);
    assert sw.keep.Keys <= Contents(log).Keys;
  }

  /** A successful compaction leaves exactly the kept keys, each with its old record. */
  lemma CompactedExactly(sw: Sweep)
    requires sw.Sound()
    ensures var log := Located(0, sw.All());
      && Contents(log) == ViewOf(sw.keep, sw.Log())
      && |IndexOf(log)| == |sw.keep| == |sw.All()| == Puts(log)
  {
    hide Sweep.Sound, Sweep.All, Puts, Live, Located;
    var log := Located(0, sw.All());
    CompactedKeys(sw);
    CopyAlone(sw);
    KeptKeys(sw);
    var m := Final(log);
    assert IndexOf(log).Keys == m.Keys && Contents(log).Keys == m.Keys;
    SameSize(IndexOf(log), sw.keep);
    SameSize(IndexOf(log), m);
    assert Submap(Contents(log), Contents(sw.Log()));
  }

  lemma KeptKeys(sw: Sweep)
    requires sw.Sound()
    ensures sw.keep.Keys <= Final(sw.Log()).Keys
  {
  }

  lemma SameSize<K, V, W>(a: map<K, V>, b: map<K, W>)
    requires a.Keys == b.Keys
    ensures |a| == |b|
  {
  }

  lemma ScanUnfold(f: Bytes)
    ensures var p := Parse(f);
      && (p.None? ==> Scan(f) == [])
      && (p.Some? ==> p.value.Size() <= |f| && Scan(f) == [p.value] + Scan(f[p.value.Size()..]))
  {
    ParsedSize(f);
  }

  /** One turn of the scan loop. */
  lemma ScanStep(f: Bytes, off: nat, done: seq<Record>)
    requires off == SizeOf(done) <= |f| && Scan(f) == done + Scan(f[off..])
    ensures var p := Parse(f[off..]);
      && (p.None? ==> Scan(f) == done)
      && (p.Some? ==>
            var next := off + p.value.Size();
            && next == SizeOf(done + [p.value]) <= |f|
            && Scan(f) == (done + [p.value]) + Scan(f[next..]))
  {
    hide Scan, Parse;
    var p := Parse(f[off..]);
    ScanUnfold(f[off..]);
    if p.Some? {
      var size := p.value.Size();
      assert f[off..][size..] == f[off + size..];
      SizeOfConcat(done, [p.value]);
      assert SizeOf([p.value]) == SizeOf([]) + size;
    }
  }

  /** Indexing the next record of a segment keeps the index that of the log so far. */
  lemma IndexRecord(log: seq<Loc>, seg: nat, done: seq<Record>, r: Record)
    ensures IndexOf(log + Located(seg, done + [r]))
         == if r.IsDelete() then IndexOf(log + Located(seg, done)) - {r.key}
            else Insert(IndexOf(log + Located(seg, done)), r.key, seg, SizeOf(done), r.ts, r.ttl, r.priority)
  {
    var l := Loc(seg, SizeOf(done), r);
    LocatedAppend(seg, done, r);
    assert log + Located(seg, done + [r]) == (log + Located(seg, done)) + [l];
    IndexStep(log + Located(seg, done), l);
  }

  lemma {:induction false} LogStorable(segs: Segs, a: nat, b: nat)
    requires b <= |segs|
    requires forall i :: 0 <= i < |segs| ==> AllStorable(segs[i])
    ensures forall l :: l in LogRange(segs, a, b) ==> Storable(l.rec)
    decreases b
  {
    if a < b {
      LogStorable(segs, a, b - 1);
    }
  }

  /** Any part of the index that agrees with clean segments is a sound basis for compaction. */
  lemma SoundSweep(segs: Segs, ix: Index, keep: Index)
    requires 0 < |segs| <= MAX_SEGMENTS && Total(segs) <= MAX_OFFSET
    requires forall i :: 0 <= i < |segs| ==> AllStorable(segs[i])
    requires Submap(ix, IndexOf(LogOf(segs))) && Submap(keep, ix)
    ensures Sweep(segs, keep).Sound()
  {
    FittingIsAddressable(segs);
    LogStorable(segs, 0, |segs|);
  }

  lemma CleanStorable(files: Files, segs: Segs)
    requires Clean(files, segs)
    ensures forall i :: 0 <= i < |segs| ==> AllStorable(segs[i])
  {
  }

  /** A record whose time is up; the index keeps 24 bits of its ttl. */
  predicate Lapsed(r: Record, policyTtl: nat, now: nat) {
    IsTtlExpired(r.ts, r.ttl % TWO_24, policyTtl, now)
  }

  lemma EntryExpires(l: Loc, policyTtl: nat, now: nat)
    ensures Expired(EntryOf(l), policyTtl, now) <==> Lapsed(l.rec, policyTtl, now)
  {
    Uint24RoundTrip(l.rec.ttl);
  }

  /** A record is in time exactly until its own time-to-live has passed, or, where it has none, the store's; with
      neither it always is. */
  lemma LapsedExactly(r: Record, policyTtl: nat, now: nat)
    ensures !Lapsed(r, policyTtl, now) <==>
              var t := if r.ttl % TWO_24 > 0 then r.ttl % TWO_24 else policyTtl;
              t == 0 || now < r.ts + t
  {
  }

  /** The same of an entry. */
  lemma ExpiredExactly(e: Entry, policyTtl: nat, now: nat)
    ensures !Expired(e, policyTtl, now) <==>
              var t := if e.ttl.Get() > 0 then e.ttl.Get() else policyTtl;
              t == 0 || now < e.ts + t
  {
  }

  /** Every record there is, live or not. */
  function Stored(segs: Segs): set<Record> {
    set l | l in LogOf(segs) :: l.rec
  }

  /** A compaction makes no records. */
  lemma CopyIsStored(sw: Sweep, n: nat)
    requires 0 < n
    ensures Stored(Compacted(n, sw.All())) <= Stored(sw.segs)
  {
    hide Located, LogOf, Compacted, Live, LogRange;
    var copy := Located(0, sw.All());
    CompactedIsLocated(n, sw.All());
    RecsLocated(0, sw.All());
    forall l | l in copy
      ensures l.rec in Stored(sw.segs)
    {
      var i :| 0 <= i < |copy| && copy[i] == l;
      var was := LiveFromLog(sw, |sw.segs|, i);
      assert l.rec == Recs(copy)[i] == was.rec;
    }
  }

  /** In the first segment no time-to-live has passed: that of the record, of which the index keeps 24 bits, or else the
      store's. */
  ghost predicate InTime(segs: Segs, policyTtl: nat, now: nat) {
    && 0 < |segs|
    && forall r :: r in segs[0] ==>
         var t := if r.ttl % TWO_24 > 0 then r.ttl % TWO_24 else policyTtl;
         t == 0 || now < r.ts + t
  }

  /** Nothing expired is copied. */
  lemma CopyIsInTime(sw: Sweep, ix: Index, n: nat, policyTtl: nat, now: nat)
    requires Submap(sw.keep, Unexpired(ix, policyTtl, now)) && 0 < n
    ensures InTime(Compacted(n, sw.All()), policyTtl, now)
  {
    hide Lapsed, Expired, EntryOf;
    forall r | r in sw.All()
      ensures !Lapsed(r, policyTtl, now)
    {
      var i :| 0 <= i < |sw.All()| && sw.All()[i] == r;
      var l := LiveFromLog(sw, |sw.segs|, i);
      EntryExpires(l, policyTtl, now);
    }
    forall r | r in sw.All()
      ensures var t := if r.ttl % TWO_24 > 0 then r.ttl % TWO_24 else policyTtl;
        t == 0 || now < r.ts + t
    {
      LapsedExactly(r, policyTtl, now);
    }
  }

  lemma AppendedInTime(segs: Segs, cur: nat, r: Record, policyTtl: nat, now: nat)
    requires cur < |segs|
    ensures 0 < cur && InTime(segs, policyTtl, now) ==> InTime(Appended(segs, cur, r), policyTtl, now)
  {
  }

  /** The offsets collected are those of the entries in time. */
  lemma CollectedInTime(ix: Index, s: nat, offsets: seq<nat>, policyTtl: nat, now: nat)
    requires Collected(Unexpired(ix, policyTtl, now), {}, s, offsets)
    ensures forall o :: o in offsets <==> exists k :: k in ix && PointsAt(ix[k], s, o)
                                            && (var t := if ix[k].ttl.Get() > 0 then ix[k].ttl.Get() else policyTtl;
                                                t == 0 || now < ix[k].ts + t)
  {
    hide Expired;
    var kept := Unexpired(ix, policyTtl, now);
    forall k | k in ix
      ensures k in kept <==> var t := if ix[k].ttl.Get() > 0 then ix[k].ttl.Get() else policyTtl;
                t == 0 || now < ix[k].ts + t
    {
      ExpiredExactly(ix[k], policyTtl, now);
    }
    forall o
      ensures o in offsets <==> exists k :: k in ix && k in kept && PointsAt(ix[k], s, o)
    {
      assert forall k :: k in kept ==> kept[k] == ix[k];
    }
  }

  /** What the index makes visible of the log. */
  function ViewOf(ix: Index, log: seq<Loc>): map<Key, Record> {
    map k | k in ix && k in Final(log) :: Final(log)[k].rec
  }

  // ---------------------------------------------------------------- what may go, and what goes first

  /** By how much `n` records exceed the limit; 0 sets none. */
  function Excess(n: nat, maxRecs: nat): nat {
    if 0 < maxRecs < n then n - maxRecs else 0
  }

  /** The order of eviction, of records. */
  predicate RanksBefore(a: Record, b: Record, policyTtl: Uint32) {
    EvictsBefore(EntryOf(Loc(0, 0, a)), EntryOf(Loc(0, 0, b)), policyTtl)
  }

  /** An entry ranks as its record does, wherever that lies. */
  lemma RankOfEntry(a: Loc, b: Loc, policyTtl: Uint32)
    ensures EvictsBefore(EntryOf(a), EntryOf(b), policyTtl) <==> RanksBefore(a.rec, b.rec, policyTtl)
  {
  }

  /** Records rank by timestamp minus the penalty of their priority and their time-to-live: their own, of which the
      index keeps 24 bits, or else the store's. */
  lemma RanksExactly(a: Record, b: Record, policyTtl: Uint32)
    requires policyTtl < WRAPPING_TTL
    ensures RanksBefore(a, b, policyTtl) <==>
              a.ts as int - IntegerPenalty(a.priority, if a.ttl % TWO_24 > 0 then a.ttl % TWO_24 else policyTtl)
                < b.ts as int - IntegerPenalty(b.priority, if b.ttl % TWO_24 > 0 then b.ttl % TWO_24 else policyTtl)
  {
    hide EvictsBefore, IntegerPenalty, SetUint24;
    PairIsIntended(EntryOf(Loc(0, 0, a)), EntryOf(Loc(0, 0, b)), policyTtl);
    Uint24RoundTrip(a.ttl);
    Uint24RoundTrip(b.ttl);
  }

  /** No record of `v` but those of `except` ranks before one of `gone`. */
  ghost predicate Outrank(u: map<Key, Record>, v: set<Key>, gone: set<Key>, except: set<Key>, policyTtl: Uint32) {
    forall x, e :: x in v && x in u && x !in except && e in gone && e in u ==> !RanksBefore(u[x], u[e], policyTtl)
  }

  /** The keys whose unexpired records `v` lacks. */
  function Lost(u: map<Key, Record>, v: map<Key, Record>, policyTtl: Uint32, now: nat): set<Key> {
    set k | k in u && k !in v && !Lapsed(u[k], policyTtl, now)
  }

  /** `v` is `u` without some expired records and at most the excess of others, and no record left, but those of
      `except`, ranks before one of the others. */
  ghost predicate CarriesBut(u: map<Key, Record>, v: map<Key, Record>, policyTtl: Uint32, now: nat, maxRecs: nat,
                             except: set<Key>) {
    && Submap(v, u)
    && |Lost(u, v, policyTtl, now)| <= Excess(|u|, maxRecs)
    && Outrank(u, v.Keys, Lost(u, v, policyTtl, now), except, policyTtl)
  }

  ghost predicate Carries(u: map<Key, Record>, v: map<Key, Record>, policyTtl: Uint32, now: nat, maxRecs: nat) {
    CarriesBut(u, v, policyTtl, now, maxRecs, {})
  }

  /** A record put while there is an excess already is not compared with what goes before it comes. */
  function Newcomer(v: map<Key, Record>, k: Key, maxRecs: nat): set<Key> {
    if Excess(|v|, maxRecs) > 0 then {k} else {}
  }

  /** `v` is `u` less exactly the excess, and no record left ranks before one that went. */
  ghost predicate Trimmed(u: map<Key, Record>, v: map<Key, Record>, maxRecs: nat, policyTtl: Uint32) {
    && Submap(v, u)
    && |v| + Excess(|u|, maxRecs) == |u|
    && Outrank(u, v.Keys, u.Keys - v.Keys, {}, policyTtl)
  }

  /** With no excess nothing unexpired goes. */
  lemma CarriesUnexpired(u: map<Key, Record>, v: map<Key, Record>, policyTtl: Uint32, now: nat, maxRecs: nat,
                         except: set<Key>)
    requires CarriesBut(u, v, policyTtl, now, maxRecs, except) && Excess(|u|, maxRecs) == 0
    ensures forall k :: k in u && !Lapsed(u[k], policyTtl, now) ==> k in v
  {
    hide Lapsed, RanksBefore;
    forall k | k in u && !Lapsed(u[k], policyTtl, now)
      ensures k in v
    {
      assert k !in Lost(u, v, policyTtl, now);
    }
  }

  lemma CarriesOnlyLapsed(u: map<Key, Record>, v: map<Key, Record>, policyTtl: Uint32, now: nat, maxRecs: nat)
    requires Submap(v, u) && forall k :: k in u && !Lapsed(u[k], policyTtl, now) ==> k in v
    ensures Carries(u, v, policyTtl, now, maxRecs)
  {
    hide Lapsed, RanksBefore;
    assert Lost(u, v, policyTtl, now) == {};
  }

  lemma SizeOfKeys(u: map<Key, Record>)
    ensures |u| == |u.Keys|
  {
  }

  /** What goes, counted. */
  lemma SubmapRest(u: map<Key, Record>, v: map<Key, Record>, gone: set<Key>)
    requires Submap(v, u) && gone <= u.Keys - v.Keys
    ensures |v| + |gone| <= |u|
  {
    SizeOfKeys(u);
    SizeOfKeys(v);
    SubsetSize(v.Keys + gone, u.Keys);
    assert v.Keys !! gone;
  }

  lemma TrimmedSame(u: map<Key, Record>, v: map<Key, Record>, maxRecs: nat, policyTtl: Uint32)
    requires Trimmed(u, v, maxRecs, policyTtl) && Excess(|u|, maxRecs) == 0
    ensures u == v
  {
    hide RanksBefore;
    forall k | k in u
      ensures k in v
    {
      if k !in v {
        SubmapRest(u, v, {k});
      }
    }
  }

  /** Of the records the limit left, the expired ones may go as well. */
  lemma TrimmedCarries(u: map<Key, Record>, p: map<Key, Record>, v: map<Key, Record>, policyTtl: Uint32, now: nat,
                       maxRecs: nat)
    requires Trimmed(u, p, maxRecs, policyTtl) && Submap(v, p)
    requires forall k :: k in p && !Lapsed(p[k], policyTtl, now) ==> k in v
    ensures Carries(u, v, policyTtl, now, maxRecs)
  {
    hide Lapsed, RanksBefore;
    var lost := Lost(u, v, policyTtl, now);
    assert lost <= u.Keys - p.Keys;
    SubmapRest(u, p, lost);
  }

  /** Enforcing the limit on the index trims what is seen. */
  lemma PrunedTrims(ix: Index, rest: Index, log: seq<Loc>, maxRecs: nat, policyTtl: Uint32)
    requires Submap(ix, IndexOf(log)) && PrunedTo(ix, rest, maxRecs, policyTtl)
    ensures Trimmed(ViewOf(ix, log), ViewOf(rest, log), maxRecs, policyTtl)
  {
    hide EntryOf, EvictsBefore, RanksBefore;
    var u, v := ViewOf(ix, log), ViewOf(rest, log);
    SameSize(ix, u);
    SameSize(rest, v);
    forall x, e | x in v && e in u.Keys - v.Keys
      ensures !RanksBefore(u[x], u[e], policyTtl)
    {
      RankOfEntry(Final(log)[x], Final(log)[e], policyTtl);
      assert rest[x] == ix[x] == EntryOf(Final(log)[x]) && ix[e] == EntryOf(Final(log)[e]);
    }
  }

  /** The view after a compaction: trimmed to the limit, and without its lapsed records. */
  lemma CompactedView(ix: Index, pruned: Index, log: seq<Loc>, policyTtl: Uint32, now: nat, maxRecs: nat)
    requires Submap(ix, IndexOf(log)) && PrunedTo(ix, pruned, maxRecs, policyTtl)
    ensures Carries(ViewOf(ix, log), ViewOf(Unexpired(pruned, policyTtl, now), log), policyTtl, now, maxRecs)
  {
    hide Trimmed, Carries, EntryOf, Lapsed, Expired, BottomSet;
    PrunedTrims(ix, pruned, log, maxRecs, policyTtl);
    var p, v := ViewOf(pruned, log), ViewOf(Unexpired(pruned, policyTtl, now), log);
    forall k | k in pruned
      ensures Expired(pruned[k], policyTtl, now) <==> Lapsed(Final(log)[k].rec, policyTtl, now)
    {
      EntryExpires(Final(log)[k], policyTtl, now);
    }
    TrimmedCarries(ViewOf(ix, log), p, v, policyTtl, now, maxRecs);
  }

  lemma {:induction false} PutsFit(log: seq<Loc>)
    requires forall l :: l in log ==> Storable(l.rec)
    ensures 26 * Puts(log) <= SizeOf(Recs(log))
    decreases |log|
  {
    if log != [] {
      var n := |log| - 1;
      assert log[n] in log;
      assert Recs(log)[..n] == Recs(log[..n]);
      PutsFit(log[..n]);
    }
  }

  function Without<V>(m: map<Key, V>, k: Key): map<Key, V> {
    m - {k}
  }

  /** The segments after one record is appended to the last segment in use. */
  function Appended(segs: Segs, cur: nat, r: Record): (s: Segs)
    requires cur < |segs|
    ensures |s| == |segs|
  {
    segs[cur := segs[cur] + [r]]
  }

  lemma AppendedTwice(t: Record, r: Record)
    ensures Appended(Appended([[], []], 0, t), 0, r) == [[t, r], []]
  {
    assert [] + [t] == [t] && [t] + [r] == [t, r];
  }

  /** What one more record does to the log and everything derived from it. */
  lemma AppendedLog(segs: Segs, cur: nat, r: Record, files: Files)
    requires cur < |segs| && Clean(files, segs) && forall i :: cur < i < |segs| ==> Seg(i) !in files
    ensures var l := Loc(cur, SizeOf(segs[cur]), r);
      && LogOf(Appended(segs, cur, r)) == LogOf(segs) + [l]
      && Total(Appended(segs, cur, r)) == Total(segs) + r.Size()
      && Puts(LogOf(Appended(segs, cur, r))) == Puts(LogOf(segs)) + (if r.IsDelete() then 0 else 1)
      && IndexOf(LogOf(Appended(segs, cur, r)))
         == (if r.IsDelete() then Without(IndexOf(LogOf(segs)), r.key) else IndexOf(LogOf(segs))[r.key := EntryOf(l)])
  {
    var l := Loc(cur, SizeOf(segs[cur]), r);
    var log := LogOf(segs);
    AbsentIsEmpty(files, segs, cur);
    LogAppend(segs, cur, r);
    assert (log + [l])[..|log|] == log;
    RecsConcat(log, [l]);
    assert Recs([l]) == [r];
    assert (Recs(log) + [r])[..|log|] == Recs(log);
    IndexStep(log, l);
  }

  /** The visible map follows a put or a remove. */
  lemma AppendedView(ix: Index, log: seq<Loc>, l: Loc)
    requires Submap(ix, IndexOf(log))
    ensures l.rec.IsDelete() ==> Submap(Without(ix, l.rec.key), IndexOf(log + [l]))
                                 && ViewOf(Without(ix, l.rec.key), log + [l]) == Without(ViewOf(ix, log), l.rec.key)
    ensures !l.rec.IsDelete() ==> Submap(ix[l.rec.key := EntryOf(l)], IndexOf(log + [l]))
                                  && ViewOf(ix[l.rec.key := EntryOf(l)], log + [l])
                                     == ViewOf(ix, log)[l.rec.key := l.rec]
  {
    hide IndexOf;
    IndexStep(log, l);
    assert (log + [l])[..|log|] == log;
  }

  /** Appending a record to a clean segment file. */
  lemma AppendedClean(f: Files, g: Files, segs: Segs, cur: nat, r: Record)
    requires Clean(f, segs) && cur < |segs| && Seg(cur) in f && Storable(r)
    requires g == f[Seg(cur) := f[Seg(cur)] + Encode(r)]
    ensures Clean(g, Appended(segs, cur, r))
  {
    assert SegmentIs(f, cur, segs[cur]);
    EncodeAllConcat(segs[cur], [r]);
    EncodeAllOne(r);
    forall i | 0 <= i < |segs|
      ensures SegmentIs(g, i, Appended(segs, cur, r)[i])
    {
      assert SegmentIs(f, i, segs[i]);
    }
  }

  /** Cut the power while a record is being logged: the segments hold it as a whole or not at all, the index file
      holds its mutation as a whole or not at all, and the index file never gets ahead of the segments. */
  ghost predicate LogSafe(segs: Segs, cur: nat, r: Record, ms: seq<Mutation>, m: Mutation, d: Disk)
    requires cur < |segs|
  {
    forall image :: CrashImage(d, image) ==>
      && IndexFile in image && Journal !in image
      && (if SegsOf(image, |segs|) == Appended(segs, cur, r)
          then Mutations(image[IndexFile]) == ms || Mutations(image[IndexFile]) == ms + [m]
          else SegsOf(image, |segs|) == segs && Mutations(image[IndexFile]) == ms)
  }

  /** The index file reads back as its mutations. */
  lemma IndexFileReads(f: Bytes, ms: seq<Mutation>)
    requires f == EncodeMutations(ms)
    ensures Mutations(f) == ms
  {
    assert ParseMutation([]) == None;
    MutationsRoundTrip(ms, []);
    assert EncodeMutations(ms) + [] == EncodeMutations(ms);
  }

  /** One more mutation, cut anywhere, is there or not. */
  lemma MutationCut(f: Bytes, ms: seq<Mutation>, m: Mutation)
    requires EncodeMutations(ms) <= f <= EncodeMutations(ms + [m])
    ensures Mutations(f) == ms || Mutations(f) == ms + [m]
  {
    var j := PrefixLoads(ms + [m], f);
    assert (ms + [m])[..|ms|] == ms;
    if j < |ms| {
      MutationsGrow(ms + [m], j + 1, |ms|);
    }
  }

  lemma MutationsGrow(ms: seq<Mutation>, i: nat, j: nat)
    requires i <= j <= |ms|
    ensures |EncodeMutations(ms[..i])| <= |EncodeMutations(ms[..j])|
  {
    assert ms[..j] == ms[..i] + ms[i..j];
    EncodeMutationsConcat(ms[..i], ms[i..j]);
  }

  /** The mutation logged for a record at its place. */
  function MutationOf(cur: nat, off: nat, r: Record): Mutation {
    if r.IsDelete() then Mutation(r.key, DELETED, 0, 0, 0, 0)
    else Mutation(r.key, Wrap32(cur), Wrap32(off), r.ts, r.ttl, r.priority)
  }

  /** What a record does to an index. */
  function Indexed(ix: Index, l: Loc): Index {
    if l.rec.IsDelete() then Without(ix, l.rec.key) else ix[l.rec.key := EntryOf(l)]
  }

  /** Logging a record and its mutation changes the replayed index file as it changes the index, and keeps it in step
      with the scanned segments: a part of the scan, and all of it if it was. */
  lemma InStep(segs: Segs, cur: nat, r: Record, ms: seq<Mutation>)
    requires cur < |segs| <= MAX_SEGMENTS && forall i :: cur < i < |segs| ==> segs[i] == []
    requires Submap(Replay(ms), IndexOf(LogOf(segs)))
    ensures var m := MutationOf(cur, SizeOf(segs[cur]), r);
      && Replay(ms + [m]) == Indexed(Replay(ms), Loc(cur, SizeOf(segs[cur]), r))
      && Submap(Replay(ms + [m]), IndexOf(LogOf(Appended(segs, cur, r))))
      && (Complete(ms, segs) ==> Complete(ms + [m], Appended(segs, cur, r)))
  {
    LogAppend(segs, cur, r);
    IndexStep(LogOf(segs), Loc(cur, SizeOf(segs[cur]), r));
    ReplayAppend(ms, MutationOf(cur, SizeOf(segs[cur]), r));
  }

  lemma AbsentIsEmpty(files: Files, segs: Segs, cur: nat)
    requires Clean(files, segs) && forall i :: cur < i < |segs| ==> Seg(i) !in files
    ensures forall i :: cur < i < |segs| ==> segs[i] == []
  {
  }

  /** With no time-to-live anywhere nothing ever lapses. */
  ghost predicate Everlasting(v: map<Key, Record>, policyTtl: nat) {
    policyTtl == 0 && forall k :: k in v ==> v[k].ttl % TWO_24 == 0
  }

  lemma CarriesAll(u: map<Key, Record>, v: map<Key, Record>, policyTtl: Uint32, now: nat)
    requires Carries(u, v, policyTtl, now, 0) && Everlasting(u, policyTtl)
    ensures u == v
  {
    hide RanksBefore;
    CarriesUnexpired(u, v, policyTtl, now, 0, {});
  }

  /** What is lost in two steps is lost in one of them. */
  lemma LostTwice(u: map<Key, Record>, v: map<Key, Record>, w: map<Key, Record>, policyTtl: Uint32, now: nat)
    requires Submap(v, u) && Submap(w, v)
    ensures Lost(u, w, policyTtl, now) == Lost(u, v, policyTtl, now) + Lost(v, w, policyTtl, now)
    ensures |Lost(u, w, policyTtl, now)| <= |Lost(u, v, policyTtl, now)| + |Lost(v, w, policyTtl, now)|
  {
    hide Lapsed;
    assert Lost(u, v, policyTtl, now) !! Lost(v, w, policyTtl, now);
  }

  /** The limit is enforced as if at once. */
  lemma CarriesTrans(u: map<Key, Record>, v: map<Key, Record>, w: map<Key, Record>, policyTtl: Uint32, now: nat,
                     maxRecs: nat, e1: set<Key>, e2: set<Key>)
    requires CarriesBut(u, v, policyTtl, now, maxRecs, e1) && CarriesBut(v, w, policyTtl, now, maxRecs, e2)
    ensures CarriesBut(u, w, policyTtl, now, maxRecs, e1 + e2)
  {
    hide Lost, RanksBefore;
    LostTwice(u, v, w, policyTtl, now);
    LostKeys(u, v, policyTtl, now);
    LostKeys(v, w, policyTtl, now);
    SubmapRest(u, v, Lost(u, v, policyTtl, now));
  }

  lemma LostKeys(u: map<Key, Record>, v: map<Key, Record>, policyTtl: Uint32, now: nat)
    ensures Lost(u, v, policyTtl, now) <= u.Keys - v.Keys
  {
  }

  lemma InsertSize(ix: Index, k: Key, e: Entry)
    ensures |ix[k := e]| == |ix| + (if k in ix then 0 else 1)
  {
  }

  lemma RemoveSize(ix: Index, k: Key)
    ensures |ix - {k}| == |ix| - (if k in ix then 1 else 0)
  {
  }

  lemma {:induction false} PrunedSmaller(ix: Index, rest: Index)
    requires Submap(rest, ix)
    ensures |rest| <= |ix|
  {
    SubsetSize(rest.Keys, ix.Keys);
    assert |rest| == |rest.Keys| && |ix| == |ix.Keys|;
  }

  lemma KeptSmaller(ix: Index, policyTtl: nat, now: nat)
    ensures |Unexpired(ix, policyTtl, now)| <= |ix|
  {
    PrunedSmaller(ix, Unexpired(ix, policyTtl, now));
  }

  /** With the scanned index the visible map is the contents of the log. */
  lemma ContentsAreView(ix: Index, log: seq<Loc>)
    requires ix == IndexOf(log)
    ensures ViewOf(ix, log) == Contents(log) && ix.Keys == Contents(log).Keys
  {
  }

  lemma CompactedCarries(ix: Index, pruned: Index, log: seq<Loc>, after: Index, newLog: seq<Loc>,
                         policyTtl: Uint32, now: nat, maxRecs: nat)
    requires Submap(ix, IndexOf(log)) && PrunedTo(ix, pruned, maxRecs, policyTtl)
    requires after == IndexOf(newLog) && Contents(newLog) == ViewOf(Unexpired(pruned, policyTtl, now), log)
    ensures Carries(ViewOf(ix, log), ViewOf(after, newLog), policyTtl, now, maxRecs)
    ensures after.Keys == Unexpired(pruned, policyTtl, now).Keys
  {
    hide Carries, EntryOf, BottomSet, Expired;
    CompactedView(ix, pruned, log, policyTtl, now, maxRecs);
    ContentsAreView(after, newLog);
  }

  lemma CarriesSame(u: map<Key, Record>, policyTtl: Uint32, now: nat, maxRecs: nat)
    ensures Carries(u, u, policyTtl, now, maxRecs)
  {
    CarriesOnlyLapsed(u, u, policyTtl, now, maxRecs);
  }

  /** At least a third as many put records are dead as are live: a compaction is due. */
  predicate Due(live: nat, dead: nat) {
    dead > 0 && 3 * dead >= live
  }

  /** What a put of `k` leaves in the index, */
  function LiveAfter(ix: Index, k: Key, maxRecs: nat): nat {
    var n := |ix| + if k in ix then 0 else 1;
    n - Excess(n, maxRecs)
  }

  /** and how many records are dead then. */
  function DeadAfter(ix: Index, k: Key, maxRecs: nat, dead: nat): nat {
    |ix| + dead + 1 - LiveAfter(ix, k, maxRecs)
  }

  lemma PrunedSize(ix: Index, k: Key, e: Entry, rest: Index, maxRecs: nat, policyTtl: Uint32)
    requires PrunedTo(ix[k := e], rest, maxRecs, policyTtl)
    ensures |rest| == LiveAfter(ix, k, maxRecs)
  {
    InsertSize(ix, k, e);
  }

  /** The percentage test in 32-bit arithmetic: the offset limit keeps the product from wrapping. */
  lemma ThresholdArithmetic(live: nat, dead: nat, lapsed: nat, segs: Segs, files: Files)
    requires Clean(files, segs) && Total(segs) <= MAX_OFFSET && Puts(LogOf(segs)) == live + dead + lapsed
    ensures live + dead > 0 ==> (Mul32(dead, 100) / (live + dead) >= 25 <==> 3 * dead >= live)
  {
    forall i | 0 <= i < |segs|
      ensures AllStorable(segs[i])
    {
      assert SegmentIs(files, i, segs[i]);
    }
    LogStorable(segs, 0, |segs|);
    PutsFit(LogOf(segs));
    assert Mul32(dead, 100) == 100 * dead;
    if live + dead > 0 {
      QuotientAtLeast(100 * dead, live + dead, 25);
    }
  }

  lemma QuotientAtLeast(a: nat, b: nat, q: nat)
    requires b > 0
    ensures a / b >= q <==> a >= q * b
  {
    var k := a / b;
    assert b * k <= a < b * (k + 1);
    if k >= q {
      MulMonotone(b, q, k);
    } else {
      MulMonotone(b, k + 1, q);
    }
  }

  lemma DroppedView(ix: Index, log: seq<Loc>, k: Key)
    requires Submap(ix, IndexOf(log))
    ensures Submap(Without(ix, k), IndexOf(log)) && ViewOf(Without(ix, k), log) == Without(ViewOf(ix, log), k)
  {
  }

  /** A smaller index sees less of the same log. */
  lemma PrunedView(ix: Index, rest: Index, log: seq<Loc>)
    requires Submap(ix, IndexOf(log)) && Submap(rest, ix)
    ensures Submap(rest, IndexOf(log)) && Submap(ViewOf(rest, log), ViewOf(ix, log))
    ensures rest == ix ==> ViewOf(rest, log) == ViewOf(ix, log)
  {
  }

  /** What a put makes visible: the new record, trimmed to the record limit. */
  lemma PutView(ix: Index, rest: Index, log: seq<Loc>, l: Loc, maxRecs: nat, policyTtl: Uint32)
    requires Submap(ix, IndexOf(log)) && !l.rec.IsDelete()
    requires PrunedTo(ix[l.rec.key := EntryOf(l)], rest, maxRecs, policyTtl)
    ensures Submap(rest, IndexOf(log + [l]))
    ensures Trimmed(ViewOf(ix, log)[l.rec.key := l.rec], ViewOf(rest, log + [l]), maxRecs, policyTtl)
    ensures Excess(|ViewOf(ix, log)[l.rec.key := l.rec]|, maxRecs) == 0 && ix == IndexOf(log) ==>
              rest == IndexOf(log + [l])
    ensures maxRecs > 0 && |ix| <= maxRecs ==> |rest| <= maxRecs
  {
    hide ViewOf, EntryOf, BottomSet, Trimmed, IndexOf;
    AppendedView(ix, log, l);
    IndexStep(log, l);
    var full := ix[l.rec.key := EntryOf(l)];
    PrunedView(full, rest, log + [l]);
    PrunedTrims(full, rest, log + [l], maxRecs, policyTtl);
    ViewSize(full, log + [l]);
    InsertSize(ix, l.rec.key, EntryOf(l));
  }

  /** As many records are seen as are indexed. */
  lemma ViewSize(ix: Index, log: seq<Loc>)
    requires Submap(ix, IndexOf(log))
    ensures |ViewOf(ix, log)| == |ix| && ViewOf(ix, log).Keys == ix.Keys
  {
    SameSize(ix, ViewOf(ix, log));
  }

  /** No more keys than put records. */
  lemma {:induction false} IndexWithinPuts(log: seq<Loc>)
    ensures |IndexOf(log)| <= Puts(log)
    decreases |log|
  {
    if log == [] {
      assert IndexOf(log) == map[];
    } else {
      var n := |log| - 1;
      IndexWithinPuts(log[..n]);
      assert log == log[..n] + [log[n]];
      IndexStep(log[..n], log[n]);
      InsertSize(IndexOf(log[..n]), log[n].rec.key, EntryOf(log[n]));
      RemoveSize(IndexOf(log[..n]), log[n].rec.key);
    }
  }
}
