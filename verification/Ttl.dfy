/** Lazy expiry: dropping entries whose time is up, whenever that happens, is never seen by a later get or exists. */
module Ttl {
  import opened Bytes
  import opened Records
  import opened Logs
  import opened StoreSpec

  /** What callers do, and when. */
  datatype Event =
    | PutEvent(key: Key, rec: Record, now: nat)
    | RemoveEvent(key: Key, now: nat)
    | GetEvent(key: Key, now: nat)

  /** The visible records of a store that never drops anything by itself. */
  function Plain(v: map<Key, Record>, e: Event): map<Key, Record> {
    match e
    case PutEvent(k, r, _) => v[k := r]
    case RemoveEvent(k, _) => v - {k}
    case GetEvent(_, _) => v
  }

  function PlainAfter(v: map<Key, Record>, events: seq<Event>): map<Key, Record> {
    if events == [] then v else Plain(PlainAfter(v, events[..|events|-1]), events[|events|-1])
  }

  /** What a get or exists reports. */
  function Reports(v: map<Key, Record>, k: Key, policyTtl: Uint32, now: nat): Option<Record> {
    if k in v && !Lapsed(v[k], policyTtl, now) then Some(v[k]) else None
  }

  /** One event at a store that may drop, whenever it likes, records whose time is up, and that enforces a limit. */
  ghost predicate LazyStep(u: map<Key, Record>, e: Event, v: map<Key, Record>, policyTtl: Uint32, maxRecs: nat) {
    CarriesBut(Plain(u, e), v, policyTtl, e.now, maxRecs, if e.GetEvent? then {} else Newcomer(u, e.key, maxRecs))
  }

  ghost predicate LazyRun(states: seq<map<Key, Record>>, events: seq<Event>, policyTtl: Uint32, maxRecs: nat) {
    && |states| == |events| + 1
    && forall i :: 0 <= i < |events| ==> LazyStep(states[i], events[i], states[i + 1], policyTtl, maxRecs)
  }

  /** A store that never drops anything stays within the limit. */
  ghost predicate Fits(v: map<Key, Record>, events: seq<Event>, maxRecs: nat) {
    forall n :: 0 <= n <= |events| ==> Excess(|PlainAfter(v, events[..n])|, maxRecs) == 0
  }

  ghost predicate ClockRuns(events: seq<Event>) {
    forall i, j :: 0 <= i < j < |events| ==> events[i].now <= events[j].now
  }

  /** What has expired stays expired. */
  lemma ExpiryIsMonotone(ts: Uint32, ttl: nat, policyTtl: Uint32, now: nat, later: nat)
    requires now <= later && IsTtlExpired(ts, ttl, policyTtl, now)
    ensures IsTtlExpired(ts, ttl, policyTtl, later)
  {
  }

  /** A record, and its entry with it, expires exactly when its effective time-to-live has passed, and not a second
      earlier; never without one. */
  lemma ExpiryIsExact(l: Loc, policyTtl: Uint32, now: nat)
    ensures var t := if l.rec.ttl % TWO_24 > 0 then l.rec.ttl % TWO_24 else policyTtl;
      && (Lapsed(l.rec, policyTtl, now) <==> t > 0 && now >= l.rec.ts + t)
      && (Expired(EntryOf(l), policyTtl, now) <==> t > 0 && now >= l.rec.ts + t)
  {
    EntryExpires(l, policyTtl, now);
    LapsedExactly(l.rec, policyTtl, now);
  }

  lemma CarriesOn(u: map<Key, Record>, v: map<Key, Record>, policyTtl: Uint32, now: nat, later: nat)
    requires Carries(u, v, policyTtl, now, 0) && now <= later
    ensures Carries(u, v, policyTtl, later, 0)
  {
    hide Carries;
    KeepsUnexpired(u, v, policyTtl, now);
    CarriesOnlyLapsed(u, v, policyTtl, later, 0);
  }

  lemma KeepsUnexpired(u: map<Key, Record>, v: map<Key, Record>, policyTtl: Uint32, now: nat)
    requires Carries(u, v, policyTtl, now, 0)
    ensures Submap(v, u) && forall k :: k in u && !Lapsed(u[k], policyTtl, now) ==> k in v
  {
    CarriesUnexpired(u, v, policyTtl, now, 0, {});
  }

  lemma PlainCarries(u: map<Key, Record>, v: map<Key, Record>, e: Event, policyTtl: Uint32)
    requires Carries(u, v, policyTtl, e.now, 0)
    ensures Carries(Plain(u, e), Plain(v, e), policyTtl, e.now, 0)
  {
    hide Carries, Lapsed;
    KeepsUnexpired(u, v, policyTtl, e.now);
    CarriesOnlyLapsed(Plain(u, e), Plain(v, e), policyTtl, e.now, 0);
  }

  lemma ReportsSame(u: map<Key, Record>, v: map<Key, Record>, k: Key, policyTtl: Uint32, now: nat)
    requires Carries(u, v, policyTtl, now, 0)
    ensures Reports(u, k, policyTtl, now) == Reports(v, k, policyTtl, now)
  {
    hide Carries, Lapsed;
    KeepsUnexpired(u, v, policyTtl, now);
  }

  /** A step of a store that has no more than the plain one, which fits, evicts nothing. */
  lemma FittingStep(plain: map<Key, Record>, u: map<Key, Record>, e: Event, v: map<Key, Record>, policyTtl: Uint32,
                    maxRecs: nat)
    requires Carries(plain, u, policyTtl, e.now, 0) && LazyStep(u, e, v, policyTtl, maxRecs)
    requires Excess(|Plain(plain, e)|, maxRecs) == 0
    ensures Carries(Plain(plain, e), v, policyTtl, e.now, 0)
  {
    hide Lapsed, Plain, Lost, Outrank;
    var except := if e.GetEvent? then {} else Newcomer(u, e.key, maxRecs);
    PlainCarries(plain, u, e, policyTtl);
    SubmapRest(Plain(plain, e), Plain(u, e), {});
    CarriesUnexpired(Plain(u, e), v, policyTtl, e.now, maxRecs, except);
    CarriesOnlyLapsed(Plain(u, e), v, policyTtl, e.now, 0);
    CarriesTrans(Plain(plain, e), Plain(u, e), v, policyTtl, e.now, 0, {}, {});
  }

  /** Whatever was dropped on the way differs from the plain store only in records whose time is up. */
  lemma {:induction false} LazyRunCarries(states: seq<map<Key, Record>>, events: seq<Event>, policyTtl: Uint32,
                                          maxRecs: nat, n: nat)
    requires LazyRun(states, events, policyTtl, maxRecs) && ClockRuns(events) && n <= |events|
    requires Fits(states[0], events, maxRecs)
    ensures Carries(PlainAfter(states[0], events[..n]), states[n], policyTtl,
                    if n == 0 then 0 else events[n - 1].now, 0)
  {
    hide Carries, LazyStep, Plain;
    if n == 0 {
      CarriesSame(states[0], policyTtl, 0, 0);
    } else {
      var e := events[n - 1];
      LazyRunCarries(states, events, policyTtl, maxRecs, n - 1);
      var plain := PlainAfter(states[0], events[..n - 1]);
      CarriesOn(plain, states[n - 1], policyTtl, if n == 1 then 0 else events[n - 2].now, e.now);
      assert events[..n][..n - 1] == events[..n - 1];
      FittingStep(plain, states[n - 1], e, states[n], policyTtl, maxRecs);
    }
  }

  /** Lazy expiry is unobservable: at every point of every run whose records fit the limit, a get at that time or later
      reports the same whether expired records were dropped or not. */
  lemma LazyExpiryUnobservable(states: seq<map<Key, Record>>, events: seq<Event>, policyTtl: Uint32, maxRecs: nat,
                               n: nat, k: Key, now: nat)
    requires LazyRun(states, events, policyTtl, maxRecs) && ClockRuns(events) && n <= |events|
    requires Fits(states[0], events, maxRecs)
    requires n > 0 ==> events[n - 1].now <= now
    ensures Reports(states[n], k, policyTtl, now) == Reports(PlainAfter(states[0], events[..n]), k, policyTtl, now)
  {
    hide Carries, LazyStep, Reports;
    LazyRunCarries(states, events, policyTtl, maxRecs, n);
    CarriesOn(PlainAfter(states[0], events[..n]), states[n], policyTtl, if n == 0 then 0 else events[n - 1].now, now);
    ReportsSame(PlainAfter(states[0], events[..n]), states[n], k, policyTtl, now);
  }

  /** A get or exists that drops the entry it found expired is such a step. */
  lemma DroppingIsLazy(v: map<Key, Record>, k: Key, policyTtl: Uint32, now: nat, maxRecs: nat)
    requires k in v && Lapsed(v[k], policyTtl, now)
    ensures LazyStep(v, GetEvent(k, now), Without(v, k), policyTtl, maxRecs)
  {
    CarriesOnlyLapsed(v, Without(v, k), policyTtl, now, maxRecs);
  }

  lemma {:induction false} PlainEverlasting(v: map<Key, Record>, events: seq<Event>)
    requires Everlasting(v, 0)
    requires forall e <- events :: e.PutEvent? ==> e.rec.ttl % TWO_24 == 0
    ensures Everlasting(PlainAfter(v, events), 0)
    decreases |events|
  {
    if events != [] {
      assert events[|events| - 1] in events;
      PlainEverlasting(v, events[..|events|-1]);
    }
  }

  /** Without any time-to-live, and within the limit, a run is that of a plain map: after every event the visible
      records are exactly those last put and not removed since. */
  lemma EverlastingRunIsMap(states: seq<map<Key, Record>>, events: seq<Event>, maxRecs: nat, n: nat)
    requires LazyRun(states, events, 0, maxRecs) && ClockRuns(events) && n <= |events|
    requires Fits(states[0], events, maxRecs) && Everlasting(states[0], 0)
    requires forall e <- events :: e.PutEvent? ==> e.rec.ttl % TWO_24 == 0
    ensures states[n] == PlainAfter(states[0], events[..n])
  {
    hide Everlasting, Carries, LazyStep;
    LazyRunCarries(states, events, 0, maxRecs, n);
    PlainEverlasting(states[0], events[..n]);
    CarriesAll(PlainAfter(states[0], events[..n]), states[n], 0, if n == 0 then 0 else events[n - 1].now);
  }
}
