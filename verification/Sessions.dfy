/** Runs of the store: what its callers are told, request after request, is what a plain map would tell them. */
module Sessions {
  import opened Bytes
  import opened Records
  import opened Logs
  import opened Disks
  import opened IndexLog
  import opened Compaction
  import opened Checksum
  import opened StoreSpec
  import opened Survival
  import opened FileStores
  import opened Reopening
  import opened Ttl

  datatype Request =
    | PutRequest(key: Bytes, data: Bytes, ttl: Uint32, ts: Uint32, priority: Byte, now: nat, cooling: bool)
    | RemoveRequest(key: Bytes, junkTtl: Uint32, junkPriority: Byte, now: nat)
    | GetRequest(key: Bytes, wantValue: bool, capacity: nat, now: nat)
    | ExistsRequest(key: Bytes, now: nat)
  {
    /** The lengths fit the caller's integer types, and nobody stores under the empty key. */
    predicate Wellformed() {
      && |key| < 0x100
      && (PutRequest? ==> 1 <= |key| && |data| < 0x1_0000)
      && (RemoveRequest? ==> 1 <= |key|)
    }

    /** The store takes it. */
    predicate Accepted() {
      |key| <= MAX_KEY_LEN && (PutRequest? ==> |data| <= MAX_VALUE_LEN)
    }

    /** What it appends to the log, at most. */
    function Room(): nat {
      match this
      case PutRequest(k, d, _, _, _, _, _) => HEADER_SIZE + |k| + |d| + COMMIT_SIZE
      case RemoveRequest(k, _, _, _) => HEADER_SIZE + |k| + COMMIT_SIZE
      case _ => 0
    }
  }

  /** What a request does to a plain map; one that is refused does nothing. */
  function EventOf(q: Request): Event {
    if !q.Accepted() then GetEvent([], q.now)
    else
      match q
      case PutRequest(k, d, ttl, ts, p, now, _) => PutEvent(k, PutRecord(k, d, ttl, ts, p), now)
      case RemoveRequest(k, _, _, now) => RemoveEvent(k, now)
      case _ => GetEvent(q.key, q.now)
  }

  function EventsOf(qs: seq<Request>): (es: seq<Event>)
    ensures |es| == |qs|
  {
    seq(|qs|, i requires 0 <= i < |qs| => EventOf(qs[i]))
  }

  /** What the caller is told: success, and for a get the length and as much of the value as fits. */
  datatype Answer = Answer(ok: bool, size: nat, out: Bytes)

  /** The answer of a store whose records are `v`. */
  function Told(v: map<Key, Record>, q: Request, policyTtl: Uint32): Answer {
    if !q.Accepted() then Answer(false, 0, [])
    else if q.PutRequest? || q.RemoveRequest? then Answer(true, 0, [])
    else
      match Reports(v, q.key, policyTtl, q.now)
      case None => Answer(false, 0, [])
      case Some(r) =>
        if q.ExistsRequest? then Answer(true, 0, [])
        else
          var n := |r.value|;
          Answer(true, n, if q.wantValue then r.value[..if n <= q.capacity then n else q.capacity] else [])
  }

  /** The store need not compact on a device that may lack room for compact.tmp. */
  predicate Unforced(store: FileStore, q: Request)
    reads store
  {
    store.reliable || !q.PutRequest? || !store.Full(|q.data|)
  }

  /** The bytes the first `n` segments take now. */
  function Used(files: Files, n: nat): nat {
    if n == 0 then 0 else Used(files, n - 1) + if Seg(n - 1) in files then |files[Seg(n - 1)]| else 0
  }

  /** The segments together stay within the reach of an offset. */
  predicate Roomy(store: FileStore, q: Request)
    reads store
  {
    Used(store.disk.files, store.segmentCount) + q.Room() <= MAX_OFFSET
  }

  lemma {:induction false} UsedUpTo(files: Files, segs: Segs, n: nat)
    requires Clean(files, segs) && n <= |segs|
    ensures Used(files, n) == SizeOf(Recs(LogRange(segs, 0, n)))
    decreases n
  {
    hide EncodeAll, Located, AllStorable, Record.Size;
    if n > 0 {
      UsedUpTo(files, segs, n - 1);
      var before, last := LogRange(segs, 0, n - 1), Located(n - 1, segs[n - 1]);
      RecsConcat(before, last);
      SizeOfConcat(Recs(before), Recs(last));
      RecsLocated(n - 1, segs[n - 1]);
      assert SegmentIs(files, n - 1, segs[n - 1]);
      SizeOfEncoding(segs[n - 1]);
    }
  }

  /** What the log takes is what the files take. */
  lemma UsedIsTotal(n: nat, d: Disk, segs: Segs, ms: seq<Mutation>)
    requires Agree(n, d, segs, ms)
    ensures Used(d.files, n) == Total(segs)
  {
    hide Used, Clean, SizeOf, Recs, IndexOf, Replay, EncodeMutations, Settled;
    UsedUpTo(d.files, segs, n);
  }

  /** With no excess before a step or after it, and no record dropped by a query, an index that had every record the
      segments have (`x`) still has (`y`). */
  ghost predicate KeepsExact(u: map<Key, Record>, e: Event, v: map<Key, Record>, maxRecs: nat, x: bool, y: bool) {
    x && Excess(|u|, maxRecs) == 0 && Excess(|Plain(u, e)|, maxRecs) == 0 && (e.GetEvent? ==> v == u) ==> y
  }

  /** One request: it is answered from what is visible, and what is visible afterwards is a step of a lazy run. */
  method Perform(store: FileStore, q: Request) returns (a: Answer)
    requires store.Valid() && q.Wellformed() && Unforced(store, q)
    requires Total(store.segs) + q.Room() <= MAX_OFFSET
    modifies store, store.writeBuf
    ensures store.reliable ==> Journal !in store.disk.files
    ensures Journal !in store.disk.files ==> store.Valid()
    ensures store.maxRecs == old(store.maxRecs) && store.policyTtl == old(store.policyTtl)
    ensures store.writeBuf == old(store.writeBuf)
    ensures a == Told(old(store.View()), q, store.policyTtl)
    ensures q.GetRequest? || q.ExistsRequest? ==>
              (a.ok <==> |q.key| <= MAX_KEY_LEN && q.key in old(store.View())
                         && (var r := old(store.View())[q.key];
                             var t := if r.ttl % TWO_24 > 0 then r.ttl % TWO_24 else store.policyTtl;
                             t == 0 || q.now < r.ts + t))
    ensures LazyStep(old(store.View()), EventOf(q), store.View(), store.policyTtl, store.maxRecs)
    ensures old(store.Entire()) ==> store.Entire()
    ensures old(AllCheckOut(store.segs)) ==> AllCheckOut(store.segs)
    ensures KeepsExact(old(store.View()), EventOf(q), store.View(), store.maxRecs, old(store.Holding().Exact()),
                       store.Holding().Exact())
    ensures Total(store.segs) <= old(Total(store.segs)) + q.Room()
  {
    hide FileStore.Valid, Total, LogOf, ViewOf, IndexOf, Guarded, ClaimBefore, ClaimAfter, PutRecord, Tombstone, Lapsed,
         CarriesBut, Complete, Updated, KeepsExact, Held.Exact, Logged, Repacked, PutInto, Due, FileStore.Spares,
         FileStore.Full, FileStore.Target, Lapsed, Told, AllCheckOut, ChecksOut, EventOf, LazyStep, Without, Submap;
    ghost var before := store.Holding();
    store.ValidFacts();
    match q
    case PutRequest(key, data, ttl, ts, priority, now, cooling) =>
      var ok := store.Put(key, data, ttl, ts, priority, now, cooling);
      a := Answer(ok, 0, []);
      if ok {
        WrittenRecords(key, data, ttl, ts, priority);
        UpdateIsLazy(before, store.Holding(), q, PutRecord(key, data, ttl, ts, priority), store.policyTtl,
                     store.maxRecs);
      } else {
        RefusedIsLazy(before, q, store.policyTtl, store.maxRecs);
      }
    case RemoveRequest(key, junkTtl, junkPriority, now) =>
      var ok := store.Remove(key, junkTtl, junkPriority, now);
      a := Answer(ok, 0, []);
      if ok {
        WrittenRecords(key, [], junkTtl, 0, junkPriority);
        UpdateIsLazy(before, store.Holding(), q, Tombstone(key, junkTtl, junkPriority), store.policyTtl, store.maxRecs);
      } else {
        RefusedIsLazy(before, q, store.policyTtl, store.maxRecs);
      }
    case GetRequest(key, wantValue, capacity, now) =>
      var ok, out, size := store.Get(key, wantValue, capacity, now);
      a := Answer(ok, if ok then size else 0, if ok && wantValue then out else []);
      store.ValidFacts();
      QueryTold(before.View(), q, a, store.policyTtl);
      QueryIsLazy(before, store.Holding(), q, ok, store.policyTtl, store.maxRecs);
    case ExistsRequest(key, now) =>
      var ok := store.Exists(key, now);
      a := Answer(ok, 0, []);
      store.ValidFacts();
      QueryTold(before.View(), q, a, store.policyTtl);
      QueryIsLazy(before, store.Holding(), q, ok, store.policyTtl, store.maxRecs);
  }

  /** What a put or a remove does is a step of a lazy run. */
  lemma UpdateIsLazy(a: Held, b: Held, q: Request, r: Record, policyTtl: Uint32, maxRecs: nat)
    requires q.Accepted() && Updated(a, b, r, policyTtl, q.now, maxRecs) && r.key == q.key
    requires q.PutRequest? || q.RemoveRequest?
    requires r.IsDelete() <==> q.RemoveRequest?
    requires q.PutRequest? ==> r == PutRecord(q.key, q.data, q.ttl, q.ts, q.priority)
    requires r.Size() <= q.Room()
    ensures LazyStep(a.View(), EventOf(q), b.View(), policyTtl, maxRecs) && Total(b.segs) <= Total(a.segs) + q.Room()
    ensures KeepsExact(a.View(), EventOf(q), b.View(), maxRecs, a.Exact(), b.Exact())
    ensures Told(a.View(), q, policyTtl) == Answer(true, 0, [])
  {
    hide CarriesBut, Total, ViewOf, LogOf, PutRecord;
  }

  /** A refused request does nothing. */
  lemma RefusedIsLazy(a: Held, q: Request, policyTtl: Uint32, maxRecs: nat)
    requires !q.Accepted()
    ensures LazyStep(a.View(), EventOf(q), a.View(), policyTtl, maxRecs)
    ensures KeepsExact(a.View(), EventOf(q), a.View(), maxRecs, a.Exact(), a.Exact())
    ensures Told(a.View(), q, policyTtl) == Answer(false, 0, [])
  {
    hide CarriesBut;
    CarriesSame(a.View(), policyTtl, q.now, maxRecs);
  }

  /** Looking a record up tells what is there. */
  lemma QueryTold(v: map<Key, Record>, q: Request, a: Answer, policyTtl: Uint32)
    requires q.GetRequest? || q.ExistsRequest?
    requires a.ok <==> |q.key| <= MAX_KEY_LEN && q.key in v
                       && (var r := v[q.key];
                           var t := if r.ttl % TWO_24 > 0 then r.ttl % TWO_24 else policyTtl;
                           t == 0 || q.now < r.ts + t)
    requires if q.GetRequest? && a.ok then a.size == |v[q.key].value| else a.size == 0
    requires if q.GetRequest? && a.ok && q.wantValue
             then a.out == v[q.key].value[..if a.size <= q.capacity then a.size else q.capacity] else a.out == []
    ensures a == Told(v, q, policyTtl)
  {
    hide Lapsed;
    if q.key in v {
      LapsedExactly(v[q.key], policyTtl, q.now);
    }
  }

  /** Looking a record up drops it at most when its time is up. */
  lemma QueryIsLazy(a: Held, b: Held, q: Request, ok: bool, policyTtl: Uint32, maxRecs: nat)
    requires q.GetRequest? || q.ExistsRequest?
    requires b.Sound() && b.segs == a.segs
    requires var v := a.View();
      && (ok <==> Told(v, q, policyTtl).ok)
      && b.View() == if |q.key| <= MAX_KEY_LEN && q.key in v && !ok then Without(v, q.key) else v
    ensures LazyStep(a.View(), EventOf(q), b.View(), policyTtl, maxRecs)
    ensures KeepsExact(a.View(), EventOf(q), b.View(), maxRecs, a.Exact(), b.Exact())
  {
    hide CarriesBut, Lapsed, ViewOf, LogOf, IndexOf;
    CarriesSame(a.View(), policyTtl, q.now, maxRecs);
    if b.View() != a.View() {
      DroppingIsLazy(a.View(), q.key, policyTtl, q.now, maxRecs);
    } else if a.Exact() {
      ViewSize(a.index, a.Log());
      ViewSize(b.index, b.Log());
    }
  }

  /** A whole session, of any length.  It ends early only where the segments would outgrow an offset, or where a device
      without room for compact.tmp stops it.  Every request is answered, as long as the records fit the limit, as by a
      plain map that drops nothing; and with no time-to-live anywhere the store is that map, and its index, its index
      file and its segments go on saying the same. */
  method Run(store: FileStore, requests: seq<Request>)
    returns (answers: seq<Answer>, ghost views: seq<map<Key, Record>>)
    requires store.Valid()
    requires forall i :: 0 <= i < |requests| ==> requests[i].Wellformed()
    modifies store, store.writeBuf
    ensures |answers| <= |requests| && (Journal !in store.disk.files ==> store.Valid())
    ensures store.reliable ==> store.Valid()
    ensures |answers| < |requests| ==>
              || !Roomy(store, requests[|answers|])
              || (!store.reliable && (Journal in store.disk.files || !Unforced(store, requests[|answers|])))
    ensures |views| == |answers| + 1 && views[0] == old(store.View()) && views[|answers|] == store.View()
    ensures LazyRun(views, EventsOf(requests[..|answers|]), store.policyTtl, store.maxRecs)
    ensures forall i, m :: 0 <= i < m < |answers| && AsksFor(requests, i, m) ==>
              OnTime(requests[i], requests[m], answers[m], store.policyTtl,
                     ClockRuns(EventsOf(requests[..|answers|]))
                       && Fits(old(store.View()), EventsOf(requests[..|answers|]), store.maxRecs))
    ensures var es := EventsOf(requests[..|answers|]);
      ClockRuns(es) && Fits(old(store.View()), es, store.maxRecs) ==> forall i :: 0 <= i < |answers| ==>
        answers[i] == Told(PlainAfter(old(store.View()), EventsOf(requests[..i])), requests[i], store.policyTtl)
    ensures var es := EventsOf(requests[..|answers|]);
      ClockRuns(es) && Fits(old(store.View()), es, store.maxRecs)
        && Untimed(old(store.View()), requests, store.policyTtl)
      ==>
        && store.View() == PlainAfter(old(store.View()), es)
        && (old(store.Holding().Exact()) ==> store.Holding().Exact())
    ensures old(store.Entire()) ==> store.Entire()
    ensures old(AllCheckOut(store.segs)) ==> AllCheckOut(store.segs)
  {
    hide FileStore.Valid, FileStore.View, Total, Told, LazyStep, Plain, EventOf, Stepped, Used, ClockRuns, Fits,
         Untimed, LazyRun, PlainAfter, FileStore.Full, FileStore.Entire, FileStore.Holding, Held.Exact, KeepsExact,
         AsksFor, OnTime, AllCheckOut;
    answers, views := [], [store.View()];
    ghost var exact := [store.Holding().Exact()];
    NotStepped(store.View(), requests, store.policyTtl, store.maxRecs, store.Holding().Exact());
    store.ValidFacts();
    while |answers| < |requests| && !(Journal in store.disk.files) && Unforced(store, requests[|answers|])
          && Roomy(store, requests[|answers|])
      invariant |answers| <= |requests|
      invariant Journal !in store.disk.files ==> store.Valid()
      invariant store.reliable ==> Journal !in store.disk.files
      invariant store.policyTtl == old(store.policyTtl) && store.maxRecs == old(store.maxRecs)
      invariant store.writeBuf == old(store.writeBuf)
      invariant |views| == |answers| + 1 && views[0] == old(store.View()) && views[|answers|] == store.View()
      invariant |exact| == |answers| + 1 && exact[0] == old(store.Holding().Exact())
      invariant exact[|answers|] == store.Holding().Exact()
      invariant Stepped(views, requests, answers, store.policyTtl, store.maxRecs, exact)
      invariant old(store.Entire()) ==> store.Entire()
      invariant old(AllCheckOut(store.segs)) ==> AllCheckOut(store.segs)
      decreases |requests| - |answers|
    {
      RoomIsRoom(store, requests[|answers|]);
      var a := Perform(store, requests[|answers|]);
      SteppedOn(views, requests, answers, store.policyTtl, store.maxRecs, exact, store.View(), a,
                store.Holding().Exact());
      answers := answers + [a];
      views := views + [store.View()];
      exact := exact + [store.Holding().Exact()];
    }
    SessionAnswers(views, requests, answers, store.policyTtl, store.maxRecs, exact);
    AllOnTime(views, requests, answers, store.policyTtl, store.maxRecs, exact);
  }

  /** A session, the store closed, and its disk opened again.  With no time-to-live and within the limit nothing is lost
      and nothing comes back: the new store is the plain map the session made, and is as complete as the old one was. */
  method RunAndReopen(store: FileStore, requests: seq<Request>) returns (answers: seq<Answer>, again: FileStore)
    requires store.Valid() && store.reliable && store.Entire() && store.Holding().Exact()
    requires forall i :: 0 <= i < |requests| ==> requests[i].Wellformed()
    modifies store, store.writeBuf
    ensures |answers| <= |requests| && fresh(again) && again.Valid()
    ensures old(AllCheckOut(store.segs)) ==> AllCheckOut(again.segs)
    ensures |answers| < |requests| ==> !Roomy(store, requests[|answers|])
    ensures var v, es := old(store.View()), EventsOf(requests[..|answers|]);
      ClockRuns(es) && Fits(v, es, again.maxRecs) && Untimed(v, requests, again.policyTtl) ==>
        again.View() == PlainAfter(v, es) && again.Entire() && again.Holding().Exact()
  {
    hide FileStore.Valid, Total, Told, EventOf, Used, ClockRuns, Fits, Untimed, LazyRun, PlainAfter, FileStore.Full,
         LogOf, ViewOf, IndexOf, Replay, Trimmed, Submap, AllCheckOut, AsksFor, OnTime;
    ghost var v := store.View();
    ghost var views;
    answers, views := Run(store, requests);
    ghost var es, ix, ms, segs := EventsOf(requests[..|answers|]), store.index, store.mutations, store.segs;
    again := Reopen(store);
    if ClockRuns(es) && Fits(v, es, again.maxRecs) && Untimed(v, requests, again.policyTtl) {
      FitsInTheEnd(v, es, again.maxRecs);
    }
  }

  lemma FitsInTheEnd(v: map<Key, Record>, es: seq<Event>, maxRecs: nat)
    requires Fits(v, es, maxRecs)
    ensures Excess(|PlainAfter(v, es)|, maxRecs) == 0
  {
    assert es[..|es|] == es;
  }

  /** Each request so far was answered from the view before it, and moved that by one step. */
  ghost predicate Stepped(views: seq<map<Key, Record>>, requests: seq<Request>, answers: seq<Answer>,
                          policyTtl: Uint32, maxRecs: nat, exact: seq<bool>) {
    && |answers| <= |requests| && |views| == |exact| == |answers| + 1
    && (forall j :: 0 <= j < |answers| ==> answers[j] == Told(views[j], requests[j], policyTtl))
    && (forall j :: 0 <= j < |answers| ==>
          LazyStep(views[j], EventOf(requests[j]), views[j + 1], policyTtl, maxRecs))
    && (forall j :: 0 <= j < |answers| ==>
          KeepsExact(views[j], EventOf(requests[j]), views[j + 1], maxRecs, exact[j], exact[j + 1]))
  }

  lemma SteppedOn(views: seq<map<Key, Record>>, requests: seq<Request>, answers: seq<Answer>, policyTtl: Uint32,
                  maxRecs: nat, exact: seq<bool>, view: map<Key, Record>, a: Answer, x: bool)
    requires Stepped(views, requests, answers, policyTtl, maxRecs, exact) && |answers| < |requests|
    requires a == Told(views[|answers|], requests[|answers|], policyTtl)
    requires LazyStep(views[|answers|], EventOf(requests[|answers|]), view, policyTtl, maxRecs)
    requires KeepsExact(views[|answers|], EventOf(requests[|answers|]), view, maxRecs, exact[|answers|], x)
    ensures Stepped(views + [view], requests, answers + [a], policyTtl, maxRecs, exact + [x])
  {
    hide Told, LazyStep, EventOf, KeepsExact;
  }

  lemma NotStepped(view: map<Key, Record>, requests: seq<Request>, policyTtl: Uint32, maxRecs: nat, x: bool)
    ensures Stepped([view], requests, [], policyTtl, maxRecs, [x])
  {
  }

  lemma RoomIsRoom(store: FileStore, q: Request)
    requires store.Valid()
    ensures Roomy(store, q) <==> Total(store.segs) + q.Room() <= MAX_OFFSET
  {
    hide Agree, Counted, Total, Used;
    UsedIsTotal(store.segmentCount, store.disk, store.segs, store.mutations);
  }

  predicate Writes(q: Request, k: Bytes) {
    (q.PutRequest? || q.RemoveRequest?) && q.Accepted() && q.key == k
  }

  /** Request `m` asks for what request `i` put, which no request between writes again. */
  predicate AsksFor(requests: seq<Request>, i: nat, m: nat) {
    && i < m < |requests| && requests[i].PutRequest? && requests[i].Accepted()
    && (requests[m].GetRequest? || requests[m].ExistsRequest?) && requests[m].key == requests[i].key
    && forall j :: i < j < m ==> !Writes(requests[j], requests[i].key)
  }

  /** The query `q` that asks for what `p` put: from the end of its time-to-live on it fails, and before, when nothing
      is evicted (`whole`), it succeeds.  The time-to-live is that of the put, of which 24 bits are kept, or else the
      store's.  When it succeeds it tells the value put. */
  predicate OnTime(p: Request, q: Request, a: Answer, policyTtl: Uint32, whole: bool)
    requires p.PutRequest? && (q.GetRequest? || q.ExistsRequest?)
  {
    var t := if p.ttl % TWO_24 > 0 then p.ttl % TWO_24 else policyTtl;
    && (t > 0 && q.now >= p.ts + t ==> !a.ok)
    && (whole && (t == 0 || q.now < p.ts + t) ==> a.ok)
    && (a.ok && q.GetRequest? ==>
          && a.size == |p.data|
          && (q.wantValue ==> a.out == p.data[..if a.size <= q.capacity then a.size else q.capacity]))
  }

  /** What is told of the record a put wrote. */
  lemma ToldOnTime(v: map<Key, Record>, p: Request, q: Request, policyTtl: Uint32, whole: bool)
    requires p.PutRequest? && p.Accepted() && (q.GetRequest? || q.ExistsRequest?) && q.key == p.key
    requires p.Wellformed()
    requires q.key in v ==> v[q.key] == PutRecord(p.key, p.data, p.ttl, p.ts, p.priority)
    requires whole ==> q.key in v
    ensures OnTime(p, q, Told(v, q, policyTtl), policyTtl, whole)
  {
    hide Lapsed, PutRecord, ChecksOut;
    WrittenRecords(p.key, p.data, p.ttl, p.ts, p.priority);
    if q.key in v {
      LapsedExactly(v[q.key], policyTtl, q.now);
    }
  }

  /** What is visible of a key is what was last put, or nothing. */
  lemma {:induction false} LastPutIsSeen(views: seq<map<Key, Record>>, requests: seq<Request>, policyTtl: Uint32,
                                         maxRecs: nat, i: nat, n: nat)
    requires LazyRun(views, EventsOf(requests), policyTtl, maxRecs) && i < n <= |requests|
    requires requests[i].PutRequest? && requests[i].Accepted()
    requires forall j :: i < j < n ==> !Writes(requests[j], requests[i].key)
    ensures var p := requests[i];
      p.key in views[n] ==> views[n][p.key] == PutRecord(p.key, p.data, p.ttl, p.ts, p.priority)
    decreases n
  {
    hide Lost, Outrank, PutRecord;
    if i < n - 1 {
      LastPutIsSeen(views, requests, policyTtl, maxRecs, i, n - 1);
    }
    assert LazyStep(views[n - 1], EventsOf(requests)[n - 1], views[n], policyTtl, maxRecs);
    PutStays(views[n - 1], requests[n - 1], requests[i], i == n - 1);
  }

  /** The next request leaves a record that it does not write. */
  lemma PutStays(v: map<Key, Record>, q: Request, p: Request, wrote: bool)
    requires p.PutRequest? && p.Accepted() && (if wrote then q == p else !Writes(q, p.key))
    ensures var u, r := Plain(v, EventOf(q)), PutRecord(p.key, p.data, p.ttl, p.ts, p.priority);
      if wrote then p.key in u && u[p.key] == r
      else (p.key in u <==> p.key in v) && (p.key in u ==> u[p.key] == v[p.key])
  {
    hide PutRecord;
  }

  /** And on a plain map it is there. */
  lemma {:induction false} LastPutStays(v: map<Key, Record>, requests: seq<Request>, i: nat, n: nat)
    requires i < n <= |requests| && requests[i].PutRequest? && requests[i].Accepted()
    requires forall j :: i < j < n ==> !Writes(requests[j], requests[i].key)
    ensures var p, w := requests[i], PlainAfter(v, EventsOf(requests[..n]));
      p.key in w && w[p.key] == PutRecord(p.key, p.data, p.ttl, p.ts, p.priority)
    decreases n
  {
    hide PutRecord, Plain, EventOf;
    if i < n - 1 {
      LastPutStays(v, requests, i, n - 1);
    }
    assert EventsOf(requests[..n])[..n - 1] == EventsOf(requests[..n - 1]);
    PutStays(PlainAfter(v, EventsOf(requests[..n - 1])), requests[n - 1], requests[i], i == n - 1);
  }

  /** In any run a query for what was put fails from the end of its time-to-live on, and succeeds before. */
  lemma AllOnTime(views: seq<map<Key, Record>>, requests: seq<Request>, answers: seq<Answer>, policyTtl: Uint32,
                  maxRecs: nat, exact: seq<bool>)
    requires Stepped(views, requests, answers, policyTtl, maxRecs, exact)
    requires forall i :: 0 <= i < |requests| ==> requests[i].Wellformed()
    ensures |answers| <= |requests| && |views| > 0
    ensures var es := EventsOf(requests[..|answers|]);
      forall i, m :: 0 <= i < m < |answers| && AsksFor(requests, i, m) ==>
        OnTime(requests[i], requests[m], answers[m], policyTtl, ClockRuns(es) && Fits(views[0], es, maxRecs))
  {
    hide Told, LazyStep, EventOf, KeepsExact, OnTime, LazyRun, ClockRuns, Fits, PutRecord;
    var done := requests[..|answers|];
    var es := EventsOf(done);
    SessionIsLazy(views, done, policyTtl, maxRecs);
    SessionAnswers(views, requests, answers, policyTtl, maxRecs, exact);
    forall i, m | 0 <= i < m < |answers| && AsksFor(requests, i, m)
      ensures OnTime(requests[i], requests[m], answers[m], policyTtl, ClockRuns(es) && Fits(views[0], es, maxRecs))
    {
      if ClockRuns(es) && Fits(views[0], es, maxRecs) {
        LastPutStays(views[0], requests, i, m);
        ToldOnTime(PlainAfter(views[0], EventsOf(requests[..m])), requests[i], requests[m], policyTtl, true);
      } else {
        LastPutIsSeen(views, done, policyTtl, maxRecs, i, m);
        ToldOnTime(views[m], requests[i], requests[m], policyTtl, false);
      }
    }
  }

  /** What a session's steps amount to. */
  lemma SessionAnswers(views: seq<map<Key, Record>>, requests: seq<Request>, answers: seq<Answer>, policyTtl: Uint32,
                       maxRecs: nat, exact: seq<bool>)
    requires Stepped(views, requests, answers, policyTtl, maxRecs, exact)
    ensures |answers| <= |requests| && |views| == |exact| == |answers| + 1
    ensures var es := EventsOf(requests[..|answers|]);
      && LazyRun(views, es, policyTtl, maxRecs)
      && (ClockRuns(es) && Fits(views[0], es, maxRecs) ==>
            && (forall i :: 0 <= i < |answers| ==>
                  answers[i] == Told(PlainAfter(views[0], EventsOf(requests[..i])), requests[i], policyTtl))
            && (Untimed(views[0], requests, policyTtl) ==>
                  views[|answers|] == PlainAfter(views[0], es) && (exact[0] ==> exact[|answers|])))
  {
    hide Told, LazyStep, EventOf, KeepsExact;
    var done := requests[..|answers|];
    SessionIsLazy(views, done, policyTtl, maxRecs);
    if ClockRuns(EventsOf(done)) && Fits(views[0], EventsOf(done), maxRecs) {
      AnswersArePlain(views, done, answers, policyTtl, maxRecs);
      assert forall i :: 0 <= i < |answers| ==> done[..i] == requests[..i];
      if Untimed(views[0], requests, policyTtl) && exact[0] {
        UntimedEvents(done);
        StaysExact(views, EventsOf(done), maxRecs, exact, |answers|);
      }
    }
  }

  /** With no time-to-live anywhere and within the limit, no step of a run makes the index lack a record. */
  lemma {:induction false} StaysExact(views: seq<map<Key, Record>>, es: seq<Event>, maxRecs: nat, exact: seq<bool>,
                                      n: nat)
    requires LazyRun(views, es, 0, maxRecs) && ClockRuns(es) && Fits(views[0], es, maxRecs)
    requires Everlasting(views[0], 0) && forall e <- es :: e.PutEvent? ==> e.rec.ttl % TWO_24 == 0
    requires |exact| == |views| && n <= |es| && exact[0]
    requires forall j :: 0 <= j < |es| ==> KeepsExact(views[j], es[j], views[j + 1], maxRecs, exact[j], exact[j + 1])
    ensures exact[n]
  {
    hide LazyRun, ClockRuns, Everlasting;
    if n > 0 {
      StaysExact(views, es, maxRecs, exact, n - 1);
      EverlastingRunIsMap(views, es, maxRecs, n - 1);
      EverlastingRunIsMap(views, es, maxRecs, n);
      assert es[..n][..n - 1] == es[..n - 1];
    }
  }

  /** Nothing ever expires. */
  ghost predicate Untimed(v: map<Key, Record>, requests: seq<Request>, policyTtl: nat) {
    && Everlasting(v, policyTtl)
    && forall i :: 0 <= i < |requests| && requests[i].PutRequest? ==> requests[i].ttl % TWO_24 == 0
  }

  lemma SessionIsLazy(views: seq<map<Key, Record>>, requests: seq<Request>, policyTtl: Uint32, maxRecs: nat)
    requires |views| == |requests| + 1
    requires forall j :: 0 <= j < |requests| ==>
      LazyStep(views[j], EventOf(requests[j]), views[j + 1], policyTtl, maxRecs)
    ensures LazyRun(views, EventsOf(requests), policyTtl, maxRecs)
  {
    hide LazyStep, EventOf;
  }

  /** Over a lazy run whose records fit the limit every answer is that of the map that drops nothing. */
  lemma AnswersArePlain(views: seq<map<Key, Record>>, requests: seq<Request>, answers: seq<Answer>, policyTtl: Uint32,
                        maxRecs: nat)
    requires LazyRun(views, EventsOf(requests), policyTtl, maxRecs) && ClockRuns(EventsOf(requests))
    requires Fits(views[0], EventsOf(requests), maxRecs) && |answers| == |requests|
    requires forall i :: 0 <= i < |requests| ==> answers[i] == Told(views[i], requests[i], policyTtl)
    ensures forall i :: 0 <= i < |requests| ==>
      answers[i] == Told(PlainAfter(views[0], EventsOf(requests[..i])), requests[i], policyTtl)
    ensures Untimed(views[0], requests, policyTtl) ==> views[|requests|] == PlainAfter(views[0], EventsOf(requests))
  {
    hide LazyStep, Fits;
    var es := EventsOf(requests);
    forall i | 0 <= i < |requests|
      ensures answers[i] == Told(PlainAfter(views[0], EventsOf(requests[..i])), requests[i], policyTtl)
    {
      assert es[..i] == EventsOf(requests[..i]);
      assert es[i].now == requests[i].now;
      if requests[i].Accepted() {
        LazyExpiryUnobservable(views, es, policyTtl, maxRecs, i, requests[i].key, requests[i].now);
      }
    }
    if Untimed(views[0], requests, policyTtl) {
      UntimedEvents(requests);
      assert es[..|requests|] == es;
      EverlastingRunIsMap(views, es, maxRecs, |requests|);
    }
  }

  lemma UntimedEvents(requests: seq<Request>)
    requires forall i :: 0 <= i < |requests| && requests[i].PutRequest? ==> requests[i].ttl % TWO_24 == 0
    ensures forall e <- EventsOf(requests) :: e.PutEvent? ==> e.rec.ttl % TWO_24 == 0
  {
  }
}
