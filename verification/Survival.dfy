/** What an operation must keep of a store's contents, at its end and at every moment a power cut may strike. */
module Survival {
  import opened Bytes
  import opened Records
  import opened Logs
  import opened Disks
  import opened Checksum
  import opened IndexLog
  import opened Compaction
  import opened Recovery
  import opened Retry
  import opened StoreSpec
  import opened StoreSteps
  import opened Eviction
  import opened Sets

  /** What a store has: the index, the records on disk, and the expired ones it dropped. */
  datatype Held = Held(index: Index, segs: Segs, lapsed: nat) {

    function Log(): seq<Loc> {
      LogOf(segs)
    }

    ghost predicate Sound() {
      Submap(index, IndexOf(Log()))
    }

    ghost predicate Exact() {
      index == IndexOf(Log())
    }

    function View(): map<Key, Record> {
      ViewOf(index, Log())
    }
  }

  // ---------------------------------------------------------------- upkeep

  /** Housekeeping: nothing changes, nothing grows, and what goes is expired, or the excess over the record limit, the
      first to be evicted going first. */
  ghost predicate Tended(a: Held, b: Held, policyTtl: Uint32, now: nat, maxRecs: nat) {
    && b.Sound() && Total(b.segs) <= Total(a.segs) && |b.index| <= |a.index| && b.lapsed <= a.lapsed
    && Submap(Contents(b.Log()), Contents(a.Log())) && Stored(b.segs) <= Stored(a.segs)
    && Carries(a.View(), b.View(), policyTtl, now, maxRecs)
    && (Excess(|a.View()|, maxRecs) == 0 && a.Exact() ==> b.Exact())
  }

  lemma TendedSame(a: Held, policyTtl: Uint32, now: nat, maxRecs: nat)
    requires a.Sound()
    ensures Tended(a, a, policyTtl, now, maxRecs)
  {
    hide Carries;
    CarriesSame(a.View(), policyTtl, now, maxRecs);
  }

  /** A compaction is housekeeping. */
  lemma CompactionTends(a: Held, pruned: Index, sw: Sweep, b: Held, policyTtl: Uint32, now: nat, maxRecs: nat)
    requires a.Sound() && PrunedTo(a.index, pruned, maxRecs, policyTtl)
    requires sw == Sweep(a.segs, Unexpired(pruned, policyTtl, now)) && sw.Sound()
    requires b.Exact() && Contents(b.Log()) == ViewOf(sw.keep, sw.Log())
    requires 0 < |a.segs| && b.segs == Compacted(|a.segs|, sw.All())
    requires Total(b.segs) <= Total(a.segs) && b.lapsed <= a.lapsed
    ensures Tended(a, b, policyTtl, now, maxRecs)
  {
    hide Sweep.Sound, Sweep.All, Compacted, Stored, Total, LogOf, BottomSet, Carries;
    CopyIsStored(sw, |a.segs|);
    CompactedCarries(a.index, pruned, a.Log(), b.index, b.Log(), policyTtl, now, maxRecs);
    PrunedSmaller(a.index, pruned);
    KeptSmaller(pruned, policyTtl, now);
    SameSize(b.index, sw.keep);
  }

  /** So is one that gave up after enforcing the record limit. */
  lemma PruningTends(a: Held, pruned: Index, policyTtl: Uint32, now: nat, maxRecs: nat)
    requires a.Sound() && PrunedTo(a.index, pruned, maxRecs, policyTtl)
    ensures Tended(a, a.(index := pruned), policyTtl, now, maxRecs)
  {
    hide BottomSet, Carries, Trimmed, ViewOf, LogOf, IndexOf, Total;
    var v := ViewOf(pruned, a.Log());
    PrunedView(a.index, pruned, a.Log());
    PrunedSmaller(a.index, pruned);
    PrunedTrims(a.index, pruned, a.Log(), maxRecs, policyTtl);
    TrimmedCarries(a.View(), v, v, policyTtl, now, maxRecs);
    ViewSize(a.index, a.Log());
  }

  /** The part of an index with the keys `ks`. */
  function Only(ix: Index, ks: set<Key>): Index {
    map k | k in ix && k in ks :: ix[k]
  }

  /** `b` is `a` compacted: segment 0 holds the records of the keys still indexed, one each and in the order they were
      logged, and the other segments are empty. */
  ghost predicate Repacked(a: Held, b: Held) {
    && 0 < |a.segs| && b.segs == Compacted(|a.segs|, Sweep(a.segs, Only(a.index, b.index.Keys)).All())
    && OneEach(b.segs[0], b.View()) && Total(b.segs) == SizeOf(b.segs[0])
  }

  lemma CompactionRepacks(a: Held, pruned: Index, sw: Sweep, b: Held, policyTtl: Uint32, now: nat, maxRecs: nat)
    requires 0 < |a.segs| && a.Sound() && PrunedTo(a.index, pruned, maxRecs, policyTtl)
    requires sw == Sweep(a.segs, Unexpired(pruned, policyTtl, now)) && sw.Sound()
    requires b.Exact() && b.segs == Compacted(|a.segs|, sw.All())
    ensures Repacked(a, b)
  {
    hide Sweep.Sound, Sweep.All, Total, BottomSet, Expired, LogOf, IndexOf, OneEach;
    CompactedIsLocated(|a.segs|, sw.All());
    CompactedExactly(sw);
    CopyHasOneEach(sw);
    ContentsAreView(b.index, b.Log());
    KeptKeys(sw);
    assert Only(a.index, b.index.Keys) == sw.keep;
  }

  // ---------------------------------------------------------------- what a power cut must leave

  /** Contents that recovery must stay within, and keys it must have. */
  datatype Claim = Claim(within: map<Key, Record>, must: set<Key>)

  /** The keys whose records are not expired; when they are too many for the record limit, only those of `kept`. */
  function Must(v: map<Key, Record>, policyTtl: Uint32, now: nat, maxRecs: nat, kept: set<Key>): set<Key> {
    set k | k in v && !Lapsed(v[k], policyTtl, now) && (Excess(|v|, maxRecs) > 0 ==> k in kept)
  }

  /** What housekeeping that ends in `b` must keep of `a` all the time: what is not expired, and, when there are too
      many records, is still there in the end. */
  function Promised(a: Held, b: Held, policyTtl: Uint32, now: nat, maxRecs: nat): Claim {
    Claim(Contents(a.Log()), Must(a.View(), policyTtl, now, maxRecs, b.View().Keys))
  }

  /** A store at rest has all it holds. */
  function AtRest(segs: Segs): Claim {
    var c := Contents(LogOf(segs));
    Claim(c, c.Keys)
  }

  /** The claims of an operation that logs `r` and ends in `d`: before the record is on disk, and after. */
  function ClaimBefore(a: Held, d: Held, r: Record, policyTtl: Uint32, now: nat, maxRecs: nat): Claim {
    Claim(Contents(a.Log()), Must(a.View(), policyTtl, now, maxRecs, d.View().Keys - {r.key}))
  }

  function ClaimAfter(a: Held, d: Held, r: Record, policyTtl: Uint32, now: nat, maxRecs: nat): Claim {
    Claim(Seen(Contents(a.Log()), r), Must(Seen(a.View(), r), policyTtl, now, maxRecs, d.View().Keys))
  }

  ghost predicate Meets(image: Files, n: nat, p: Claim) {
    var c := Contents(RecoveredLog(image, n));
    Submap(c, p.within) && p.must <= c.Keys
  }

  /** Whatever a power cut leaves of `d`, recovery meets one of the claims. */
  ghost predicate Survives(d: Disk, n: nat, p: Claim, q: Claim) {
    forall image :: CrashImage(d, image) ==> Meets(image, n, p) || Meets(image, n, q)
  }

  /** All states survive, but for those between a rename and the clearing of the commit journal. */
  ghost predicate Guarded(states: seq<Disk>, n: nat, p: Claim, q: Claim) {
    forall i :: 0 <= i < |states| ==> InSwap(states[i]) || Survives(states[i], n, p, q)
  }

  /** All states of some housekeeping keep what is promised. */
  ghost predicate Upkept(states: seq<Disk>, n: nat, a: Held, b: Held, policyTtl: Uint32, now: nat, maxRecs: nat) {
    var p := Promised(a, b, policyTtl, now, maxRecs);
    Guarded(states, n, p, p)
  }

  /** `p` promises at least what `q` does. */
  ghost predicate Stronger(p: Claim, q: Claim) {
    Submap(p.within, q.within) && q.must <= p.must
  }

  lemma GuardedWeaken(states: seq<Disk>, n: nat, p: Claim, q: Claim, p1: Claim, q1: Claim)
    requires Guarded(states, n, p, q)
    requires Stronger(p, p1) || Stronger(p, q1)
    requires Stronger(q, p1) || Stronger(q, q1)
    ensures Guarded(states, n, p1, q1)
  {
    forall i | 0 <= i < |states|
      ensures InSwap(states[i]) || Survives(states[i], n, p1, q1)
    {
      if Survives(states[i], n, p, q) {
        SurvivesWeaken(states[i], n, p, q, p1, q1);
      }
    }
  }

  lemma SurvivesWeaken(d: Disk, n: nat, p: Claim, q: Claim, p1: Claim, q1: Claim)
    requires Survives(d, n, p, q)
    requires Stronger(p, p1) || Stronger(p, q1)
    requires Stronger(q, p1) || Stronger(q, q1)
    ensures Survives(d, n, p1, q1)
  {
    hide RecoveredLog;
    forall image | CrashImage(d, image)
      ensures Meets(image, n, p1) || Meets(image, n, q1)
    {
      assert Meets(image, n, p) || Meets(image, n, q);
    }
  }

  lemma GuardedJoin(from: nat, middle: seq<Disk>, history: seq<Disk>, n: nat, p: Claim, q: Claim)
    requires from <= |middle| && middle <= history
    requires Guarded(middle[from..], n, p, q) && Guarded(history[|middle|..], n, p, q)
    ensures Guarded(history[from..], n, p, q)
  {
    hide Survives, InSwap;
    assert history[from..] == middle[from..] + history[|middle|..];
  }

  lemma UpkeptJoin(from: nat, middle: seq<Disk>, history: seq<Disk>, n: nat, a: Held, b: Held,
                   policyTtl: Uint32, now: nat, maxRecs: nat)
    requires from <= |middle| && middle <= history
    requires Upkept(middle[from..], n, a, b, policyTtl, now, maxRecs)
    requires Upkept(history[|middle|..], n, a, b, policyTtl, now, maxRecs)
    ensures Upkept(history[from..], n, a, b, policyTtl, now, maxRecs)
  {
    hide Guarded, Promised;
    var p := Promised(a, b, policyTtl, now, maxRecs);
    GuardedJoin(from, middle, history, n, p, p);
  }

  lemma UpkeptNothing(history: seq<Disk>, n: nat, a: Held, b: Held, policyTtl: Uint32, now: nat, maxRecs: nat)
    ensures Upkept(history[|history|..], n, a, b, policyTtl, now, maxRecs)
  {
  }

  /** Every state of a compaction is guarded by what the store held before it. */
  lemma CompactionGuards(a: Held, pruned: Index, sw: Sweep, b: Held, states: seq<Disk>, swap: nat,
                         policyTtl: Uint32, now: nat, maxRecs: nat)
    requires a.Sound() && PrunedTo(a.index, pruned, maxRecs, policyTtl)
    requires sw == Sweep(a.segs, Unexpired(pruned, policyTtl, now)) && CompactionTrace(sw, states, swap)
    requires b.View().Keys <= pruned.Keys
    ensures Upkept(states, |a.segs|, a, b, policyTtl, now, maxRecs)
  {
    hide InSwap, CrashSafe, Promised, Held.View;
    var p := Promised(a, b, policyTtl, now, maxRecs);
    forall i | 0 <= i < |states|
      ensures InSwap(states[i]) || Survives(states[i], |a.segs|, p, p)
    {
      if CrashSafe(sw, states[i]) {
        SafeSurvives(a, pruned, sw, b, states[i], policyTtl, now, maxRecs);
      }
    }
  }

  lemma SafeSurvives(a: Held, pruned: Index, sw: Sweep, b: Held, d: Disk, policyTtl: Uint32, now: nat, maxRecs: nat)
    requires a.Sound() && PrunedTo(a.index, pruned, maxRecs, policyTtl)
    requires sw == Sweep(a.segs, Unexpired(pruned, policyTtl, now)) && CrashSafe(sw, d)
    requires b.View().Keys <= pruned.Keys
    ensures var p := Promised(a, b, policyTtl, now, maxRecs);
      Survives(d, |a.segs|, p, p)
  {
    hide RecoveredLog, LogOf, Contents, ViewOf, Must;
    MustIsKept(a, pruned, b.View().Keys, policyTtl, now, maxRecs);
  }

  lemma MustIsKept(a: Held, pruned: Index, kept: set<Key>, policyTtl: Uint32, now: nat, maxRecs: nat)
    requires a.Sound() && PrunedTo(a.index, pruned, maxRecs, policyTtl) && kept <= pruned.Keys
    ensures Must(a.View(), policyTtl, now, maxRecs, kept) <= Unexpired(pruned, policyTtl, now).Keys
  {
    hide LogOf, EntryOf, BottomSet;
    ViewSize(a.index, a.Log());
    forall k | k in Must(a.View(), policyTtl, now, maxRecs, kept)
      ensures k in Unexpired(pruned, policyTtl, now)
    {
      EntryExpires(Final(a.Log())[k], policyTtl, now);
    }
  }

  /** A compaction shows nothing that the record limit evicted, whether it finishes or gives up. */
  lemma CompactionShows(a: Held, pruned: Index, sw: Sweep, b: Held, policyTtl: Uint32, now: nat, maxRecs: nat)
    requires a.Sound() && PrunedTo(a.index, pruned, maxRecs, policyTtl)
    requires sw == Sweep(a.segs, Unexpired(pruned, policyTtl, now))
    requires || b == a.(index := pruned)
             || (b.Exact() && Contents(b.Log()) == ViewOf(sw.keep, sw.Log()))
    ensures b.View().Keys <= pruned.Keys && Submap(b.View(), a.View())
  {
    hide LogOf, BottomSet;
    if b != a.(index := pruned) {
      ContentsAreView(b.index, b.Log());
    }
  }

  /** A store at rest survives with everything it holds. */
  lemma RestSurvives(n: nat, d: Disk, segs: Segs, ms: seq<Mutation>)
    requires Agree(n, d, segs, ms)
    ensures Survives(d, n, AtRest(segs), AtRest(segs))
  {
    hide LogOf, SegRecs, Total, Replay, IndexOf;
    forall image | CrashImage(d, image)
      ensures RecoveredLog(image, n) == LogOf(segs)
    {
      forall i | 0 <= i < n
        ensures SegRecs(image, i) == segs[i]
      {
        SegmentScans(d.files, i, segs[i]);
        SettledSegment(d, image, i);
      }
      assert SegsOf(image, n) == segs;
    }
  }

  lemma SettledSegment(d: Disk, image: Files, i: nat)
    requires Settled(d) && CrashImage(d, image)
    ensures SegRecs(image, i) == SegRecs(d.files, i)
  {
    if Seg(i) in d.files {
      assert d.Durable(Seg(i));
      DurableSurvives(d, image, Seg(i));
    }
  }

  lemma MustCarried(u: map<Key, Record>, v: map<Key, Record>, policyTtl: Uint32, now: nat, maxRecs: nat)
    requires Carries(u, v, policyTtl, now, maxRecs)
    ensures Must(u, policyTtl, now, maxRecs, v.Keys) <= v.Keys
  {
    hide Lapsed, RanksBefore, Lost;
    if Excess(|u|, maxRecs) == 0 {
      CarriesUnexpired(u, v, policyTtl, now, maxRecs, {});
    }
  }

  /** A store at rest after some housekeeping has all that was promised. */
  lemma RestIsStronger(a: Held, b: Held, policyTtl: Uint32, now: nat, maxRecs: nat)
    requires Tended(a, b, policyTtl, now, maxRecs)
    ensures Stronger(AtRest(b.segs), Promised(a, b, policyTtl, now, maxRecs))
  {
    hide Total, LogOf, Lapsed, ViewOf, Contents, Carries;
    ViewInContents(b);
    MustCarried(a.View(), b.View(), policyTtl, now, maxRecs);
  }

  /** One more state that survives. */
  lemma OneGuards(history: seq<Disk>, d: Disk, n: nat, a: Held, b: Held, policyTtl: Uint32, now: nat, maxRecs: nat)
    requires var p := Promised(a, b, policyTtl, now, maxRecs); Survives(d, n, p, p)
    ensures Upkept((history + [d])[|history|..], n, a, b, policyTtl, now, maxRecs)
  {
  }

  /** One more state, in which the store is at rest after some housekeeping. */
  lemma RestGuards(history: seq<Disk>, n: nat, d: Disk, ms: seq<Mutation>, a: Held, b: Held,
                   policyTtl: Uint32, now: nat, maxRecs: nat)
    requires Agree(n, d, b.segs, ms) && Tended(a, b, policyTtl, now, maxRecs)
    ensures Upkept((history + [d])[|history|..], n, a, b, policyTtl, now, maxRecs)
  {
    hide Agree, Survives, Stronger, AtRest, Promised, Upkept, Tended;
    var p := Promised(a, b, policyTtl, now, maxRecs);
    RestSurvives(n, d, b.segs, ms);
    RestIsStronger(a, b, policyTtl, now, maxRecs);
    SurvivesWeaken(d, n, AtRest(b.segs), AtRest(b.segs), p, p);
    OneGuards(history, d, n, a, b, policyTtl, now, maxRecs);
  }

  // ---------------------------------------------------------------- clearing

  /** A disk without a journal whose segments before `k` are empty or gone, and whose others are whole, recovers to no
      record the store did not have. */
  lemma TailSurvives(d: Disk, segs: Segs, k: nat)
    requires k <= |segs| && Journal !in d.files
    requires forall i :: 0 <= i < k && Seg(i) in d.files ==> d.files[Seg(i)] == []
    requires forall i :: k <= i < |segs| ==> SegmentIs(d.files, i, segs[i]) && d.Durable(Seg(i))
    ensures var p := Claim(Contents(LogOf(segs)), {}); Survives(d, |segs|, p, p)
  {
    hide LogRange, Final, Scan;
    forall image | CrashImage(d, image)
      ensures Submap(Contents(RecoveredLog(image, |segs|)), Contents(LogOf(segs)))
    {
      EmptyScan();
      forall i | 0 <= i < |segs|
        ensures SegRecs(image, i) == if i < k then [] else segs[i]
      {
        if k <= i {
          SegmentScans(d.files, i, segs[i]);
          if Seg(i) in d.files {
            DurableSurvives(d, image, Seg(i));
          }
        } else if Seg(i) in d.files {
          assert image[Seg(i)] <= [];
        }
      }
      LogOfTail(SegsOf(image, |segs|), segs, k);
      forall key
        ensures key in Final(LogRange(segs, k, |segs|)) ==>
          key in Final(LogOf(segs)) && Final(LogOf(segs))[key] == Final(LogRange(segs, k, |segs|))[key]
      {
        TailKey(segs, k, key);
      }
    }
  }

  lemma EmptyScan()
    ensures Scan([]) == []
  {
    assert Parse([]).None?;
  }

  /** Clearing never shows what was not there, wherever it is cut short. */
  lemma ClearGuards(n: nat, before: Disk, segs: Segs, ms: seq<Mutation>, history: seq<Disk>, from: nat)
    requires Agree(n, before, segs, ms) && from + n <= |history|
    requires forall i :: from <= i < from + n ==> history[i] == WithoutFirst(before, i - from + 1)
    requires forall i :: from + n <= i < |history| ==> Wiped(before.files, history[i].files, n)
    ensures var p := Claim(Contents(LogOf(segs)), {}); Guarded(history[from..], n, p, p)
  {
    hide LogOf, Contents, Survives, Total, IndexOf, Replay, EncodeMutations, Settled, EncodeAll, InSwap;
    var p := Claim(Contents(LogOf(segs)), {});
    forall i | from <= i < |history|
      ensures Survives(history[i], n, p, p)
    {
      if i < from + n {
        FirstGoneIsClean(before, segs, i - from + 1);
        TailSurvives(history[i], segs, i - from + 1);
      } else {
        assert Journal !in Segments(n) + {IndexFile};
        TailSurvives(history[i], segs, n);
      }
    }
  }

  lemma FirstGoneIsClean(before: Disk, segs: Segs, k: nat)
    requires k <= |segs| && Clean(before.files, segs) && Settled(before) && Journal !in before.files
    ensures var d := WithoutFirst(before, k);
      && Journal !in d.files
      && (forall i :: 0 <= i < k ==> Seg(i) !in d.files)
      && (forall i :: k <= i < |segs| ==> SegmentIs(d.files, i, segs[i]) && d.Durable(Seg(i)))
  {
    forall i | 0 <= i < |segs|
      ensures Seg(i) in Segments(k) <==> i < k
    {
    }
    forall i | k <= i < |segs|
      ensures SegmentIs(WithoutFirst(before, k).files, i, segs[i]) && WithoutFirst(before, k).Durable(Seg(i))
    {
      assert SegmentIs(before.files, i, segs[i]);
      assert before.Durable(Seg(i));
    }
  }

  // ---------------------------------------------------------------- logging a record

  /** Every state keeps segments and index file in step while the record is logged. */
  ghost predicate AllLogSafe(states: seq<Disk>, segs: Segs, cur: nat, r: Record, ms: seq<Mutation>, m: Mutation)
    requires cur < |segs|
  {
    forall i :: 0 <= i < |states| ==> LogSafe(segs, cur, r, ms, m, states[i])
  }

  lemma AllLogSafeFrom(history: seq<Disk>, from: nat, segs: Segs, cur: nat, r: Record, ms: seq<Mutation>, m: Mutation)
    requires cur < |segs| && from <= |history|
    requires forall i :: from <= i < |history| ==> LogSafe(segs, cur, r, ms, m, history[i])
    ensures AllLogSafe(history[from..], segs, cur, r, ms, m)
  {
  }

  lemma AllLogSafeJoin(from: nat, middle: seq<Disk>, history: seq<Disk>, segs: Segs, cur: nat, r: Record,
                       ms: seq<Mutation>, m: Mutation)
    requires cur < |segs| && from <= |middle| && middle <= history
    requires AllLogSafe(middle[from..], segs, cur, r, ms, m) && AllLogSafe(history[|middle|..], segs, cur, r, ms, m)
    ensures AllLogSafe(history[from..], segs, cur, r, ms, m)
  {
  }

  /** While a record is logged a power cut leaves the contents without it or with it. */
  lemma LoggingGuards(states: seq<Disk>, segs: Segs, cur: nat, r: Record, ms: seq<Mutation>, m: Mutation)
    requires cur < |segs| && AllLogSafe(states, segs, cur, r, ms, m)
    ensures Guarded(states, |segs|, AtRest(segs), AtRest(Appended(segs, cur, r)))
  {
  }

  /** What is seen once a record has been logged. */
  function Seen(v: map<Key, Record>, r: Record): map<Key, Record> {
    if r.IsDelete() then Without(v, r.key) else v[r.key := r]
  }

  /** `b` is `a` with one more record, trimmed to the record limit. */
  ghost predicate Logged(a: Held, b: Held, r: Record, maxRecs: nat, policyTtl: Uint32) {
    && b.Sound() && Total(b.segs) == Total(a.segs) + r.Size() && b.lapsed == a.lapsed
    && Contents(b.Log()) == Seen(Contents(a.Log()), r) && Stored(b.segs) == Stored(a.segs) + {r}
    && Trimmed(Seen(a.View(), r), b.View(), maxRecs, policyTtl)
    && (Excess(|Seen(a.View(), r)|, maxRecs) == 0 && a.Exact() ==> b.Exact())
  }

  /** An index that is a part of the index file still is when both follow a record. */
  lemma IndexedParts(ix: Index, ms: seq<Mutation>, m: Mutation, rest: Index, l: Loc)
    requires Submap(ix, Replay(ms)) && Replay(ms + [m]) == Indexed(Replay(ms), l) && Submap(rest, Indexed(ix, l))
    ensures Submap(rest, Replay(ms + [m]))
  {
    hide Replay, EntryOf;
  }

  /** `b` is `a` with one more put record at the end of segment `cur`, its entry, and the record limit enforced. */
  ghost predicate PutInto(a: Held, b: Held, cur: nat, r: Record, maxRecs: nat, policyTtl: Uint32) {
    && cur < |a.segs| && b.segs == Appended(a.segs, cur, r) && b.lapsed == a.lapsed
    && PrunedTo(a.index[r.key := EntryOf(Loc(cur, SizeOf(a.segs[cur]), r))], b.index, maxRecs, policyTtl)
  }

  lemma PutSize(a: Held, b: Held, cur: nat, r: Record, maxRecs: nat, policyTtl: Uint32)
    requires PutInto(a, b, cur, r, maxRecs, policyTtl)
    ensures cur < |a.segs| && |b.index| == LiveAfter(a.index, r.key, maxRecs)
  {
    hide PrunedTo, Appended, SizeOf, EntryOf;
    PrunedSize(a.index, r.key, EntryOf(Loc(cur, SizeOf(a.segs[cur]), r)), b.index, maxRecs, policyTtl);
  }

  lemma LoggedSize(a: Held, b: Held, r: Record, maxRecs: nat, policyTtl: Uint32)
    requires Logged(a, b, r, maxRecs, policyTtl)
    ensures Total(b.segs) == Total(a.segs) + r.Size()
  {
  }

  /** An empty store is nowhere near a compaction. */
  lemma NothingDue(ix: Index, key: Key, gone: Key)
    requires ix == map[]
    ensures Without(ix, gone) == ix && !Due(|ix|, 0) && !Due(LiveAfter(ix, key, 0), DeadAfter(ix, key, 0, 0))
  {
  }

  /** The first put record, behind a tombstone. */
  lemma PutBehind(a: Held, b: Held, t: Record, r: Record)
    requires a.index == map[] && a.segs == Appended([[], []], 0, t) && PutInto(a, b, 0, r, 0, 0)
    ensures b.segs == [[t, r], []] && b.index.Keys == {r.key}
  {
    AppendedTwice(t, r);
  }

  /** A put record and its index entry. */
  lemma PutLogs(n: nat, d: Disk, ms: seq<Mutation>, a: Held, dead: nat, cur: nat, r: Record, rest: Index, dead1: nat,
                maxRecs: nat, policyTtl: Uint32)
    requires Agree(n, d, a.segs, ms) && Counted(a.index, ms, a.segs, dead, a.lapsed)
    requires cur < n && (forall i :: cur < i < n ==> Seg(i) !in d.files) && !r.IsDelete()
    requires PrunedTo(a.index[r.key := EntryOf(Loc(cur, SizeOf(a.segs[cur]), r))], rest, maxRecs, policyTtl)
    requires |rest| + dead1 == |a.index| + dead + 1
    ensures var b, m := Held(rest, Appended(a.segs, cur, r), a.lapsed), MutationOf(cur, SizeOf(a.segs[cur]), r);
      && Logged(a, b, r, maxRecs, policyTtl) && Counted(b.index, ms + [m], b.segs, dead1, b.lapsed)
      && (Complete(ms, a.segs) ==> Complete(ms + [m], b.segs))
    ensures maxRecs > 0 && |a.index| <= maxRecs ==> |rest| <= maxRecs
  {
    hide LogOf, Total, Replay, Settled, Clean, EntryOf, ViewOf, Puts, Appended, SizeOf, Record.Size, BottomSet,
         Trimmed, EncodeMutations, MutationOf, Contents, IndexOf;
    var l := Loc(cur, SizeOf(a.segs[cur]), r);
    AppendedLog(a.segs, cur, r, d.files);
    AbsentIsEmpty(d.files, a.segs, cur);
    InStep(a.segs, cur, r, ms);
    IndexedParts(a.index, ms, MutationOf(cur, SizeOf(a.segs[cur]), r), rest, l);
    PutView(a.index, rest, a.Log(), l, maxRecs, policyTtl);
    ViewSize(a.index, a.Log());
    LoggedContents(a.Log(), l);
  }

  /** A tombstone and the entry it takes away. */
  lemma TombstoneLogs(n: nat, d: Disk, ms: seq<Mutation>, a: Held, dead: nat, cur: nat, r: Record, dead1: nat,
                      policyTtl: Uint32)
    requires Agree(n, d, a.segs, ms) && Counted(a.index, ms, a.segs, dead, a.lapsed)
    requires cur < n && (forall i :: cur < i < n ==> Seg(i) !in d.files) && r.IsDelete()
    requires |Without(a.index, r.key)| + dead1 == |a.index| + dead
    ensures var b := Held(Without(a.index, r.key), Appended(a.segs, cur, r), a.lapsed);
      var m := MutationOf(cur, SizeOf(a.segs[cur]), r);
      && Logged(a, b, r, 0, policyTtl) && Counted(b.index, ms + [m], b.segs, dead1, b.lapsed)
      && (Complete(ms, a.segs) ==> Complete(ms + [m], b.segs))
  {
    hide LogOf, Total, Replay, Settled, Clean, EntryOf, ViewOf, Puts, Appended, SizeOf, Record.Size, EncodeMutations,
         MutationOf, Trimmed, Without, IndexOf;
    var l := Loc(cur, SizeOf(a.segs[cur]), r);
    AppendedLog(a.segs, cur, r, d.files);
    AbsentIsEmpty(d.files, a.segs, cur);
    InStep(a.segs, cur, r, ms);
    IndexedParts(a.index, ms, MutationOf(cur, SizeOf(a.segs[cur]), r), Without(a.index, r.key), l);
    AppendedView(a.index, a.Log(), l);
    TrimmedNothing(Without(a.View(), r.key), policyTtl);
    LoggedContents(a.Log(), l);
  }

  lemma TrimmedNothing(u: map<Key, Record>, policyTtl: Uint32)
    ensures Trimmed(u, u, 0, policyTtl)
  {
  }

  lemma LoggedContents(log: seq<Loc>, l: Loc)
    ensures Contents(log + [l]) == Seen(Contents(log), l.rec)
    ensures (set x | x in log + [l] :: x.rec) == (set x | x in log :: x.rec) + {l.rec}
  {
  }

  // ---------------------------------------------------------------- whole operations

  /** What a put or a remove does to what a store holds: of the old records and the new one, what goes is expired, or
      the excess over the record limit, the first to be evicted going first.  Only when there was an excess before the
      put may the new record rank before one that goes. */
  ghost predicate Updated(a: Held, b: Held, r: Record, policyTtl: Uint32, now: nat, maxRecs: nat) {
    && b.Sound() && Total(b.segs) <= Total(a.segs) + r.Size() && b.lapsed <= a.lapsed
    && Stored(b.segs) <= Stored(a.segs) + {r}
    && CarriesBut(Seen(a.View(), r), b.View(), policyTtl, now, maxRecs, Newcomer(a.View(), r.key, maxRecs))
    && (Excess(|Seen(a.View(), r)|, maxRecs) == 0 && Excess(|a.View()|, maxRecs) == 0 && a.Exact() ==> b.Exact())
  }

  /** The checksum of every record there is, live or not, checks out. */
  ghost predicate AllCheckOut(segs: Segs) {
    forall r :: r in Stored(segs) ==> ChecksOut(r)
  }

  lemma UpdateChecksOut(a: Held, b: Held, r: Record, policyTtl: Uint32, now: nat, maxRecs: nat)
    requires Updated(a, b, r, policyTtl, now, maxRecs) && ChecksOut(r)
    ensures AllCheckOut(a.segs) ==> AllCheckOut(b.segs)
  {
    hide ChecksOut, Stored, CarriesBut, Total, LogOf, IndexOf, Held.Sound, Held.View, Held.Exact;
  }

  lemma NothingToCheck(segs: Segs)
    requires LogOf(segs) == []
    ensures AllCheckOut(segs)
  {
  }

  /** Housekeeping, one record, and housekeeping again. */
  lemma UpdateDone(a: Held, b: Held, c: Held, d: Held, r: Record, policyTtl: Uint32, now: nat, maxRecs: nat)
    requires Tended(a, b, policyTtl, now, maxRecs) && (r.IsDelete() ==> a.View() == b.View())
    requires Logged(b, c, r, if r.IsDelete() then 0 else maxRecs, policyTtl)
    requires Tended(c, d, policyTtl, now, maxRecs)
    ensures Updated(a, d, r, policyTtl, now, maxRecs)
  {
    hide Total, LogOf, Lapsed, Contents, CarriesBut, Trimmed, Lost, RanksBefore, ViewOf, Record.IsDelete, IndexOf;
    var e, limit := Newcomer(a.View(), r.key, maxRecs), if r.IsDelete() then 0 else maxRecs;
    SeenCarries(a.View(), b.View(), r, policyTtl, now, maxRecs);
    TrimmedCarriesAll(Seen(b.View(), r), c.View(), policyTtl, now, limit, maxRecs);
    CarriesTrans(Seen(a.View(), r), Seen(b.View(), r), c.View(), policyTtl, now, maxRecs, e, {});
    CarriesTrans(Seen(a.View(), r), c.View(), d.View(), policyTtl, now, maxRecs, e + {}, {});
    assert e + {} + {} == e;
    SizesShrink(a.View(), b.View(), c.View(), r, policyTtl, now, maxRecs);
  }

  lemma TrimmedCarriesAll(u: map<Key, Record>, v: map<Key, Record>, policyTtl: Uint32, now: nat, limit: nat,
                          maxRecs: nat)
    requires Trimmed(u, v, limit, policyTtl) && (limit == 0 || limit == maxRecs)
    ensures Carries(u, v, policyTtl, now, maxRecs)
  {
    hide Carries, Outrank;
    if limit == 0 {
      TrimmedSame(u, v, limit, policyTtl);
      CarriesSame(u, policyTtl, now, maxRecs);
    } else {
      TrimmedCarries(u, v, v, policyTtl, now, maxRecs);
    }
  }

  /** Without an excess in the end there is none on the way. */
  lemma SizesShrink(u: map<Key, Record>, v: map<Key, Record>, w: map<Key, Record>, r: Record, policyTtl: Uint32,
                    now: nat, maxRecs: nat)
    requires Carries(u, v, policyTtl, now, maxRecs)
    requires Trimmed(Seen(v, r), w, if r.IsDelete() then 0 else maxRecs, policyTtl)
    ensures !r.IsDelete() ==> |u| <= |Seen(u, r)|
    ensures |Seen(v, r)| <= |Seen(u, r)| && |w| <= |Seen(v, r)|
  {
    hide Lost, Outrank, Record.IsDelete;
    SeenSubmap(v, u, r);
    SubmapRest(Seen(u, r), Seen(v, r), {});
    if !r.IsDelete() {
      SizeOfKeys(u);
      SizeOfKeys(Seen(u, r));
      SubsetSize(u.Keys, Seen(u, r).Keys);
    }
  }

  lemma SeenCarries(u: map<Key, Record>, v: map<Key, Record>, r: Record, policyTtl: Uint32, now: nat, maxRecs: nat)
    requires Carries(u, v, policyTtl, now, maxRecs) && (r.IsDelete() ==> u == v)
    ensures CarriesBut(Seen(u, r), Seen(v, r), policyTtl, now, maxRecs, Newcomer(u, r.key, maxRecs))
  {
    hide Lost, RanksBefore, Record.IsDelete, Without;
    if r.IsDelete() {
      CarriesSame(Seen(u, r), policyTtl, now, maxRecs);
    } else {
      LostAfterPut(u, v, r, policyTtl, now);
      NewRecordRanks(u, v, r, Lost(u, v, policyTtl, now), Newcomer(u, r.key, maxRecs), policyTtl);
    }
  }

  lemma LostAfterPut(u: map<Key, Record>, v: map<Key, Record>, r: Record, policyTtl: Uint32, now: nat)
    requires Submap(v, u)
    ensures Lost(u[r.key := r], v[r.key := r], policyTtl, now) == Lost(u, v, policyTtl, now) - {r.key}
    ensures |Lost(u[r.key := r], v[r.key := r], policyTtl, now)| <= |Lost(u, v, policyTtl, now)|
    ensures |u| <= |u[r.key := r]| && Submap(v[r.key := r], u[r.key := r])
  {
    hide Lapsed;
    var before, after := Lost(u, v, policyTtl, now), Lost(u[r.key := r], v[r.key := r], policyTtl, now);
    assert after == before - {r.key};
    SubsetSize(after, before);
    SizeOfKeys(u);
    SizeOfKeys(u[r.key := r]);
    SubsetSize(u.Keys, u[r.key := r].Keys);
  }

  lemma NewRecordRanks(u: map<Key, Record>, v: map<Key, Record>, r: Record, gone: set<Key>, except: set<Key>,
                       policyTtl: Uint32)
    requires Outrank(u, v.Keys, gone, {}, policyTtl) && Submap(v, u) && (gone == {} || r.key in except)
    ensures Outrank(u[r.key := r], v[r.key := r].Keys, gone - {r.key}, except, policyTtl)
  {
    hide RanksBefore;
  }

  lemma SeenSubmap(u: map<Key, Record>, v: map<Key, Record>, r: Record)
    requires Submap(u, v)
    ensures Submap(Seen(u, r), Seen(v, r))
  {
  }

  /** What must be there in the end is there at each stage: after the first housekeeping, `u` to `v`, */
  lemma MustBefore(u: map<Key, Record>, v: map<Key, Record>, w: map<Key, Record>, x: map<Key, Record>, r: Record,
                   policyTtl: Uint32, now: nat, maxRecs: nat)
    requires Carries(u, v, policyTtl, now, maxRecs) && Submap(w, Seen(v, r)) && Submap(x, w)
    ensures var must := Must(u, policyTtl, now, maxRecs, x.Keys - {r.key});
      must <= v.Keys && must <= Must(u, policyTtl, now, maxRecs, v.Keys)
  {
    hide Lapsed, RanksBefore, Lost, Outrank;
    if Excess(|u|, maxRecs) == 0 {
      CarriesUnexpired(u, v, policyTtl, now, maxRecs, {});
    }
  }

  /** and once the record is logged, `v` to `w`. */
  lemma MustAfter(u: map<Key, Record>, v: map<Key, Record>, w: map<Key, Record>, x: map<Key, Record>, r: Record,
                  policyTtl: Uint32, now: nat, maxRecs: nat)
    requires Carries(u, v, policyTtl, now, maxRecs) && (r.IsDelete() ==> u == v)
    requires Trimmed(Seen(v, r), w, if r.IsDelete() then 0 else maxRecs, policyTtl) && Submap(x, w)
    ensures var must := Must(Seen(u, r), policyTtl, now, maxRecs, x.Keys);
      must <= w.Keys && must <= Must(w, policyTtl, now, maxRecs, x.Keys)
  {
    hide Lapsed, RanksBefore, Lost, Outrank, Record.IsDelete;
    SeenSubmap(v, u, r);
    SizesShrink(u, v, w, r, policyTtl, now, maxRecs);
    if Excess(|Seen(u, r)|, maxRecs) == 0 {
      TrimmedSame(Seen(v, r), w, if r.IsDelete() then 0 else maxRecs, policyTtl);
      if !r.IsDelete() {
        CarriesUnexpired(u, v, policyTtl, now, maxRecs, {});
      }
    }
  }

  lemma SubmapKeys<K, V>(u: map<K, V>, v: map<K, V>)
    requires Submap(u, v)
    ensures u.Keys <= v.Keys
  {
  }

  /** The claims of a whole operation follow from those of its three stages. */
  lemma ClaimsHold(a: Held, b: Held, c: Held, d: Held, r: Record, policyTtl: Uint32, now: nat, maxRecs: nat)
    requires Tended(a, b, policyTtl, now, maxRecs) && (r.IsDelete() ==> a.View() == b.View())
    requires Logged(b, c, r, if r.IsDelete() then 0 else maxRecs, policyTtl) && Submap(d.View(), c.View())
    ensures var p, q := ClaimBefore(a, d, r, policyTtl, now, maxRecs), ClaimAfter(a, d, r, policyTtl, now, maxRecs);
      && Stronger(Promised(a, b, policyTtl, now, maxRecs), p) && Stronger(AtRest(b.segs), p)
      && Stronger(AtRest(c.segs), q) && Stronger(Promised(c, d, policyTtl, now, maxRecs), q)
  {
    hide Total, LogOf, Lapsed, Contents, ViewOf, Must, IndexOf, Seen, Lost, Outrank, Submap, Record.IsDelete;
    MustBefore(a.View(), b.View(), c.View(), d.View(), r, policyTtl, now, maxRecs);
    MustAfter(a.View(), b.View(), c.View(), d.View(), r, policyTtl, now, maxRecs);
    SeenSubmap(Contents(b.Log()), Contents(a.Log()), r);
    ViewInContents(b);
    SubmapKeys(b.View(), Contents(b.Log()));
    ViewInContents(c);
    SubmapKeys(c.View(), Contents(c.Log()));
    SubmapRefl(Contents(a.Log()));
  }

  lemma SubmapRefl<K, V>(u: map<K, V>)
    ensures Submap(u, u)
  {
  }

  lemma ViewInContents(a: Held)
    requires a.Sound()
    ensures Submap(a.View(), Contents(a.Log()))
  {
  }

  /** The three stretches of states of a whole operation. */
  lemma UpdateGuards(from: nat, h1: seq<Disk>, h2: seq<Disk>, h3: seq<Disk>, n: nat,
                     p0: Claim, p: Claim, rest: Claim, logged: Claim, q0: Claim, q: Claim)
    requires from <= |h1| && h1 <= h2 <= h3
    requires Guarded(h1[from..], n, p0, p0) && Guarded(h2[|h1|..], n, rest, logged) && Guarded(h3[|h2|..], n, q0, q0)
    requires Stronger(p0, p) && Stronger(rest, p) && Stronger(logged, q) && Stronger(q0, q)
    ensures Guarded(h3[from..], n, p, q)
  {
    hide Guarded, Stronger;
    GuardedWeaken(h1[from..], n, p0, p0, p, q);
    GuardedWeaken(h2[|h1|..], n, rest, logged, p, q);
    GuardedWeaken(h3[|h2|..], n, q0, q0, p, q);
    GuardedJoin(from, h1, h2, n, p, q);
    GuardedJoin(from, h2, h3, n, p, q);
  }

  lemma CountedIsSound(ix: Index, ms: seq<Mutation>, segs: Segs, dead: nat, lapsed: nat)
    requires Counted(ix, ms, segs, dead, lapsed)
    ensures Held(ix, segs, lapsed).Sound()
  {
  }

  lemma TendedSizes(a: Held, b: Held, policyTtl: Uint32, now: nat, maxRecs: nat)
    requires Tended(a, b, policyTtl, now, maxRecs)
    ensures Total(b.segs) <= Total(a.segs) && |b.index| <= |a.index| && Submap(b.View(), a.View())
  {
  }

  /** A put or a remove, as a whole. */
  lemma OperationDone(from: nat, h1: seq<Disk>, h2: seq<Disk>, h3: seq<Disk>, n: nat, a: Held, b: Held, c: Held,
                      d: Held, r: Record, policyTtl: Uint32, now: nat, maxRecs: nat)
    requires Tended(a, b, policyTtl, now, maxRecs) && (r.IsDelete() ==> a.View() == b.View())
    requires Logged(b, c, r, if r.IsDelete() then 0 else maxRecs, policyTtl)
    requires Tended(c, d, policyTtl, now, maxRecs)
    requires from <= |h1| && h1 <= h2 <= h3
    requires Upkept(h1[from..], n, a, b, policyTtl, now, maxRecs)
    requires Guarded(h2[|h1|..], n, AtRest(b.segs), AtRest(c.segs))
    requires Upkept(h3[|h2|..], n, c, d, policyTtl, now, maxRecs)
    ensures Updated(a, d, r, policyTtl, now, maxRecs) && |d.index| <= |c.index|
    ensures Guarded(h3[from..], n, ClaimBefore(a, d, r, policyTtl, now, maxRecs),
                    ClaimAfter(a, d, r, policyTtl, now, maxRecs))
  {
    hide Tended, Logged, Updated, Stronger, Promised, ClaimBefore, ClaimAfter, AtRest, Guarded, Submap, Record.IsDelete,
         ViewOf, LogOf;
    TendedSizes(c, d, policyTtl, now, maxRecs);
    ClaimsHold(a, b, c, d, r, policyTtl, now, maxRecs);
    UpdateDone(a, b, c, d, r, policyTtl, now, maxRecs);
    UpdateGuards(from, h1, h2, h3, n, Promised(a, b, policyTtl, now, maxRecs),
                 ClaimBefore(a, d, r, policyTtl, now, maxRecs), AtRest(b.segs), AtRest(c.segs),
                 Promised(c, d, policyTtl, now, maxRecs), ClaimAfter(a, d, r, policyTtl, now, maxRecs));
  }

  /** A put into an empty store, of a record that never expires. */
  lemma OnlyRecord(a: Held, b: Held, r: Record, now: nat)
    requires a.View() == map[] && !r.IsDelete() && r.ttl == 0 && Updated(a, b, r, 0, now, 0)
    ensures b.View() == map[r.key := r]
  {
    hide LogOf, Total, Stored;
    CarriesAll(map[r.key := r], b.View(), 0, now);
  }

  lemma OneEverlasting(r: Record)
    requires r.ttl == 0
    ensures Everlasting(map[r.key := r], 0)
  {
  }

  /** With no time-to-live and no record limit a compaction keeps the whole view. */
  lemma KeepsEverlasting(a: Held, pruned: Index, sw: Sweep, after: map<Key, Record>, now: nat)
    requires a.Sound() && Everlasting(a.View(), 0) && PrunedTo(a.index, pruned, 0, 0)
    requires sw == Sweep(a.segs, Unexpired(pruned, 0, now)) && after == ViewOf(sw.keep, sw.Log())
    ensures after == a.View()
  {
    hide LogOf;
    forall k | k in a.index
      ensures k in sw.keep
    {
      EntryExpires(Final(a.Log())[k], 0, now);
      assert a.View()[k] == Final(a.Log())[k].rec;
    }
  }
}
