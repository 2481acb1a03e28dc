/** Whole runs of the write-back cache: it answers like a plain map, and it keeps what was used last. */
module CacheRuns {
  import opened Records
  import opened Caches

  /** A call, with what the backing store does during it: whether an evicted value can be written, and which values
      a sync cannot write. */
  datatype Call<K, V> =
    | PutCall(key: K, value: V, priority: nat, wrote: bool)
    | GetCall(key: K, wrote: bool)
    | RemoveCall(key: K)
    | ExistsCall(key: K)
    | SyncCall(stuck: set<K>)

  datatype Answer<V> = Done(ok: bool) | Found(value: Option<V>)

  function Step<K, V>(c: Cache<K, V>, capacity: nat, call: Call<K, V>): (Answer<V>, Cache<K, V>) {
    match call
    case PutCall(k, v, priority, wrote) => var (ok, d) := Put(c, capacity, k, v, priority, wrote); (Done(ok), d)
    case GetCall(k, wrote) => var (found, d) := Get(c, capacity, k, wrote); (Found(found), d)
    case RemoveCall(k) => (Done(true), Remove(c, k))
    case ExistsCall(k) => (Done(Cached(c.items, k).Some? || k in c.l2), c)
    case SyncCall(stuck) => (Done(NoneStuck(c.items, stuck)), Synced(c, stuck))
  }

  function Run<K, V>(c: Cache<K, V>, capacity: nat, calls: seq<Call<K, V>>): (r: (seq<Answer<V>>, Cache<K, V>))
    ensures |r.0| == |calls|
    decreases |calls|
  {
    if calls == [] then ([], c)
    else
      var (a, d) := Step(c, capacity, calls[0]);
      var (rest, e) := Run(d, capacity, calls[1..]);
      ([a] + rest, e)
  }

  // ---------------------------------------------------------------- a plain map

  /** A plain map's state after a call; a put the cache refused changes nothing. */
  function MapStep<K, V>(m: map<K, V>, call: Call<K, V>, answer: Answer<V>): map<K, V> {
    match call
    case PutCall(k, v, _, _) => if answer == Done(true) then m[k := v] else m
    case RemoveCall(k) => m - {k}
    case _ => m
  }

  /** What a plain map answers; whether a put or a sync succeeds is not up to the map. */
  ghost predicate MapAnswers<K, V>(m: map<K, V>, call: Call<K, V>, answer: Answer<V>) {
    match call
    case GetCall(k, _) => answer == Found(if k in m then Some(m[k]) else None)
    case RemoveCall(_) => answer == Done(true)
    case ExistsCall(k) => answer == Done(k in m)
    case _ => answer.Done?
  }

  function MapAfter<K, V>(m: map<K, V>, calls: seq<Call<K, V>>, answers: seq<Answer<V>>): map<K, V>
    requires |answers| == |calls|
    decreases |calls|
  {
    if calls == [] then m else MapAfter(MapStep(m, calls[0], answers[0]), calls[1..], answers[1..])
  }

  ghost predicate MapRun<K, V>(m: map<K, V>, calls: seq<Call<K, V>>, answers: seq<Answer<V>>)
    requires |answers| == |calls|
    decreases |calls|
  {
    || calls == []
    || (MapAnswers(m, calls[0], answers[0]) && MapRun(MapStep(m, calls[0], answers[0]), calls[1..], answers[1..]))
  }

  /** The backing store fails no write during the call. */
  predicate Healthy<K, V>(call: Call<K, V>) {
    match call
    case PutCall(_, _, _, wrote) => wrote
    case GetCall(_, wrote) => wrote
    case SyncCall(stuck) => stuck == {}
    case _ => true
  }

  lemma StepTransparent<K(!new), V>(c: Cache<K, V>, capacity: nat, call: Call<K, V>)
    requires Coherent(c)
    ensures var (a, d) := Step(c, capacity, call);
      && Coherent(d) && MapAnswers(Visible(c), call, a) && Visible(d) == MapStep(Visible(c), call, a)
      && (Healthy(call) && capacity > 0 && (call.PutCall? || call.SyncCall?) ==> a == Done(true))
  {
    hide Coherent, Visible, Put, Get, Remove, Synced, Cached;
    match call
    case PutCall(k, v, priority, wrote) => PutVisible(c, capacity, k, v, priority, wrote);
    case GetCall(k, wrote) => GetVisible(c, capacity, k, wrote);
    case RemoveCall(k) => RemoveVisible(c, k);
    case ExistsCall(k) => VisibleAt(c, k);
    case SyncCall(stuck) => SyncVisible(c, stuck);
  }

  /** The cache is invisible: over any run, with any failures of the backing store, every answer is the one a plain
      map would give, and the visible map is the plain map. */
  lemma {:induction false} RunTransparent<K(!new), V>(c: Cache<K, V>, capacity: nat, calls: seq<Call<K, V>>)
    requires Coherent(c)
    ensures var (answers, d) := Run(c, capacity, calls);
      && Coherent(d) && MapRun(Visible(c), calls, answers) && Visible(d) == MapAfter(Visible(c), calls, answers)
    decreases |calls|
  {
    hide Coherent, Visible, Step, MapStep, MapAnswers;
    if calls != [] {
      StepTransparent(c, capacity, calls[0]);
      var (a, d) := Step(c, capacity, calls[0]);
      RunTransparent(d, capacity, calls[1..]);
      var answers := Run(c, capacity, calls).0;
      assert answers[0] == a && answers[1..] == Run(d, capacity, calls[1..]).0;
    }
  }

  /** With a backing store that fails no write the answers do not depend on the cache at all. */
  lemma {:induction false} SizeIsInvisible<K(!new), V>(c: Cache<K, V>, m: nat, d: Cache<K, V>, n: nat,
                                                       calls: seq<Call<K, V>>)
    requires Coherent(c) && Coherent(d) && Visible(c) == Visible(d) && m > 0 && n > 0
    requires forall call <- calls :: Healthy(call)
    ensures Run(c, m, calls).0 == Run(d, n, calls).0
    decreases |calls|
  {
    hide Coherent, Visible, Step, Healthy;
    if calls != [] {
      assert calls[0] in calls;
      StepTransparent(c, m, calls[0]);
      StepTransparent(d, n, calls[0]);
      SizeIsInvisible(Step(c, m, calls[0]).1, m, Step(d, n, calls[0]).1, n, calls[1..]);
    }
  }

  // ---------------------------------------------------------------- recency

  function Without<K(==)>(s: seq<K>, k: K): seq<K> {
    if s == [] then [] else (if s[0] == k then [] else [s[0]]) + Without(s[1..], k)
  }

  function Take<T>(s: seq<T>, n: nat): seq<T> {
    if |s| <= n then s else s[..n]
  }

  /** The keys in the order they were last put or got, whatever the cache's size; `m` is the visible map. */
  function Recent<K, V>(keys: seq<K>, m: map<K, V>, call: Call<K, V>): seq<K> {
    match call
    case PutCall(k, _, _, _) => [k] + Without(keys, k)
    case GetCall(k, _) => if k in m then [k] + Without(keys, k) else keys
    case RemoveCall(k) => Without(keys, k)
    case _ => keys
  }

  function RecentAfter<K, V>(keys: seq<K>, m: map<K, V>, calls: seq<Call<K, V>>): seq<K>
    decreases |calls|
  {
    if calls == [] then keys
    else RecentAfter(Recent(keys, m, calls[0]), MapStep(m, calls[0], Done(true)), calls[1..])
  }

  lemma {:induction false} WithoutAbsent<K>(s: seq<K>, k: K)
    requires k !in s
    ensures Without(s, k) == s
    decreases |s|
  {
    if s != [] {
      WithoutAbsent(s[1..], k);
    }
  }

  lemma {:induction false} WithoutAt<K>(s: seq<K>, p: nat)
    requires p < |s| && forall i, j :: 0 <= i < j < |s| ==> s[i] != s[j]
    ensures Without(s, s[p]) == Dropped(s, p)
    decreases |s|
  {
    if p == 0 {
      WithoutAbsent(s[1..], s[0]);
    } else {
      WithoutAt(s[1..], p - 1);
      assert Dropped(s, p) == [s[0]] + Dropped(s[1..], p - 1);
    }
  }

  lemma {:induction false} WithoutPrefix<K>(s: seq<K>, t: seq<K>, k: K)
    requires s <= t
    ensures Without(s, k) <= Without(t, k)
    decreases |s|
  {
    if s != [] {
      assert s[1..] <= t[1..];
      WithoutPrefix(s[1..], t[1..], k);
    }
  }

  lemma KeysDropped<K, V>(items: seq<Item<K, V>>, p: nat)
    requires p < |items|
    ensures Keys(Dropped(items, p)) == Dropped(Keys(items), p)
  {
  }

  lemma KeysOf<K, V>(items: seq<Item<K, V>>, k: K)
    requires DistinctKeys(items)
    ensures var p := Position(items, k);
      Without(Keys(items), k) == if p < |items| then Keys(Dropped(items, p)) else Keys(items)
  {
    hide Dropped, Without;
    var p := Position(items, k);
    if p < |items| {
      assert Keys(items)[p] == k;
      WithoutAt(Keys(items), p);
      KeysDropped(items, p);
    } else {
      WithoutAbsent(Keys(items), k);
    }
  }

  lemma RoomKeys<K, V>(c: Cache<K, V>, capacity: nat)
    requires 0 < capacity && |c.items| <= capacity
    ensures Room(c, capacity, true).Some?
    ensures Keys(Room(c, capacity, true).value.items) == Take(Keys(c.items), capacity - 1)
  {
  }

  lemma TakeAll<T>(s: seq<T>, n: nat)
    requires |s| <= n
    ensures Take(s, n) == s
  {
  }

  /** Using a key that is cached brings it to the front. */
  lemma HitKeys<K, V>(items: seq<Item<K, V>>, p: nat, it: Item<K, V>, capacity: nat)
    requires DistinctKeys(items) && p < |items| <= capacity && it.key == items[p].key
    ensures Keys([it] + Dropped(items, p)) == Take([it.key] + Without(Keys(items), it.key), capacity)
  {
    hide Dropped;
    KeysOf(items, it.key);
    CachedIs(items, p);
    TakeAll([it.key] + Without(Keys(items), it.key), capacity);
  }

  /** Using a key that is not cached pushes the least recent one out. */
  lemma MissKeys<K, V>(c: Cache<K, V>, capacity: nat, it: Item<K, V>)
    requires DistinctKeys(c.items) && Cached(c.items, it.key).None? && 0 < capacity && |c.items| <= capacity
    ensures Room(c, capacity, true).Some?
    ensures Keys([it] + Room(c, capacity, true).value.items)
              == Take([it.key] + Without(Keys(c.items), it.key), capacity)
  {
    hide Room;
    KeysOf(c.items, it.key);
    RoomKeys(c, capacity);
    var r := Room(c, capacity, true).value.items;
    assert Keys([it] + r) == [it.key] + Keys(r);
  }

  /** One call keeps exactly the most recently used keys the cache has room for: only the least recent one goes. */
  lemma StepIsLru<K(!new), V>(c: Cache<K, V>, capacity: nat, call: Call<K, V>)
    requires Coherent(c) && 0 < capacity && |c.items| <= capacity && Healthy(call)
    ensures var d := Step(c, capacity, call).1;
      Keys(d.items) == Take(Recent(Keys(c.items), Visible(c), call), capacity)
  {
    hide Visible, Room, Dropped, Take, Synced, Keys, Without;
    TakeAll(Keys(c.items), capacity);
    match call
    case PutCall(k, v, priority, wrote) =>
      var p := Position(c.items, k);
      if p < |c.items| {
        HitKeys(c.items, p, c.items[p].(value := v, priority := priority, dirty := true), capacity);
      } else {
        RoomKeys(c, capacity);
        MissKeys(c, capacity, Item(k, v, priority, true, k in Room(c, capacity, true).value.l2));
      }
    case GetCall(k, wrote) =>
      var p := Position(c.items, k);
      VisibleAt(c, k);
      if p < |c.items| {
        HitKeys(c.items, p, c.items[p], capacity);
      } else if k in c.l2 {
        MissKeys(c, capacity, Item(k, c.l2[k], 0, false, true));
      }
    case RemoveCall(k) =>
      KeysOf(c.items, k);
      TakeAll(Without(Keys(c.items), k), capacity);
    case ExistsCall(k) =>
    case SyncCall(stuck) => SyncCoherent(c, stuck);
  }

  lemma RecentPrefix<K, V>(s: seq<K>, t: seq<K>, m: map<K, V>, call: Call<K, V>)
    requires s <= t
    ensures Recent(s, m, call) <= Recent(t, m, call)
  {
    if call.PutCall? || call.GetCall? || call.RemoveCall? {
      WithoutPrefix(s, t, call.key);
    }
  }

  /** Over any run the recency list starts with the cached keys, in order: what is cached was used more recently than
      anything that is not. */
  lemma {:induction false} RunIsLru<K(!new), V>(c: Cache<K, V>, capacity: nat, calls: seq<Call<K, V>>, recent: seq<K>)
    requires Coherent(c) && 0 < capacity && |c.items| <= capacity && Keys(c.items) <= recent
    requires forall call <- calls :: Healthy(call)
    ensures Keys(Run(c, capacity, calls).1.items) <= RecentAfter(recent, Visible(c), calls)
    ensures |Run(c, capacity, calls).1.items| <= capacity
    decreases |calls|
  {
    hide Coherent, Visible, Step, Healthy, Recent, Keys;
    if calls != [] {
      var call := calls[0];
      assert call in calls;
      StepTransparent(c, capacity, call);
      StepIsLru(c, capacity, call);
      RecentPrefix(Keys(c.items), recent, Visible(c), call);
      var (a, d) := Step(c, capacity, call);
      SameMapStep(Visible(c), call, a);
      RunIsLru(d, capacity, calls[1..], Recent(recent, Visible(c), call));
    }
  }

  lemma SameMapStep<K, V>(m: map<K, V>, call: Call<K, V>, a: Answer<V>)
    requires call.PutCall? ==> a == Done(true)
    ensures MapStep(m, call, a) == MapStep(m, call, Done(true))
  {
  }

  /** Inclusion: for the same calls a smaller cache always holds the front of a larger one's recency list. */
  lemma {:induction false} Inclusion<K(!new), V>(c: Cache<K, V>, m: nat, d: Cache<K, V>, n: nat, calls: seq<Call<K, V>>)
    requires Coherent(c) && Coherent(d) && Visible(c) == Visible(d) && 0 < m <= n
    requires |c.items| <= m && |d.items| <= n && Keys(c.items) <= Keys(d.items)
    requires forall call <- calls :: Healthy(call)
    ensures Keys(Run(c, m, calls).1.items) <= Keys(Run(d, n, calls).1.items)
    decreases |calls|
  {
    hide Coherent, Visible, Step, Healthy, Recent, Keys;
    if calls != [] {
      var call := calls[0];
      assert call in calls;
      StepTransparent(c, m, call);
      StepTransparent(d, n, call);
      StepIsLru(c, m, call);
      StepIsLru(d, n, call);
      RecentPrefix(Keys(c.items), Keys(d.items), Visible(c), call);
      SameMapStep(Visible(c), call, Step(c, m, call).0);
      SameMapStep(Visible(d), call, Step(d, n, call).0);
      Inclusion(Step(c, m, call).1, m, Step(d, n, call).1, n, calls[1..]);
    }
  }
}
