/** The index file: an append-only log of index mutations, replayed at boot. */
module IndexLog {
  import opened Bytes
  import opened Records
  import opened Logs

  const DELETED: Uint32 := 0xFFFF_FFFF

  /** One entry of the index file; segment 0xFFFFFFFF records a removal. */
  datatype Mutation = Mutation(key: Key, segment: Uint32, offset: Uint32, ts: Uint32, ttl: Uint32, priority: Byte)

  const MUTATION_SIZE: nat := 18

  function TailFields(m: Mutation): seq<Bytes> {
    [m.key, Le(m.segment, 4), Le(m.offset, 4), Le(m.ts, 4), Le(m.ttl, 4), [m.priority]]
  }

  function EncodeMutation(m: Mutation): Bytes {
    [|m.key|] + Flatten(TailFields(m))
  }

  function MutationBlocks(ms: seq<Mutation>): (bs: seq<Bytes>)
    ensures |bs| == |ms|
  {
    seq(|ms|, i requires 0 <= i < |ms| => EncodeMutation(ms[i]))
  }

  function EncodeMutations(ms: seq<Mutation>): Bytes {
    Flatten(MutationBlocks(ms))
  }

  /** The entry at the head of `f`, if the file holds all of it. */
  function ParseMutation(f: Bytes): Option<Mutation> {
    if f == [] || f[0] > MAX_KEY_LEN then None
    else
      var r := Read(f[1..], [f[0], 4, 4, 4, 4, 1]);
      if r.Short? then None
      else Some(Mutation(r.fields[0], Uint32At(r.fields[1]), Uint32At(r.fields[2]),
                         Uint32At(r.fields[3]), Uint32At(r.fields[4]), r.fields[5][0]))
  }

  function Mutations(f: Bytes): seq<Mutation>
    decreases |f|
  {
    var p := ParseMutation(f);
    MutationFits(f);
    if p.None? then [] else [p.value] + Mutations(f[MUTATION_SIZE + |p.value.key|..])
  }

  function Insert(ix: Index, k: Key, segment: nat, offset: nat, ts: Uint32, ttl: Uint32, priority: Byte): Index {
    ix[k := Entry(Wrap8(segment), SetUint24(Wrap32(offset)), ts, SetUint24(ttl), priority)]
  }

  function Apply(ix: Index, m: Mutation): Index {
    if m.segment == DELETED then ix - {m.key}
    else Insert(ix, m.key, m.segment, m.offset, m.ts, m.ttl, m.priority)
  }

  /** The index after the mutations, in order. */
  function Replay(ms: seq<Mutation>): Index {
    if ms == [] then map[] else Apply(Replay(ms[..|ms|-1]), ms[|ms|-1])
  }

  lemma SumOfTail(k: nat)
    ensures Sum([k, 4, 4, 4, 4, 1]) == k + MUTATION_SIZE - 1
  {
    assert [k, 4, 4, 4, 4, 1][1..] == [4, 4, 4, 4, 1];
    assert [4, 4, 4, 4, 1][1..][1..] == [4, 4, 1];
    assert Sum([4, 4, 1]) == 9;
    assert Sum([4, 4, 4, 4, 1]) == 17;
  }

  lemma MutationFits(f: Bytes)
    ensures ParseMutation(f).Some? ==> MUTATION_SIZE + |ParseMutation(f).value.key| <= |f|
  {
    var p := ParseMutation(f);
    if p.Some? {
      SumOfTail(|p.value.key|);
      ReadShort(f[1..], [f[0], 4, 4, 4, 4, 1]);
    }
  }

  /** Where each field of an index entry lies, and the segment that records a removal. */
  lemma EntryLayout(m: Mutation)
    ensures var b, k := EncodeMutation(m), 1 + |m.key|;
      && |b| == k + 17 && b[0] == |m.key| && b[1..k] == m.key
      && b[k..k + 4] == Le(m.segment, 4) && b[k + 4..k + 8] == Le(m.offset, 4)
      && b[k + 8..k + 12] == Le(m.ts, 4) && b[k + 12..k + 16] == Le(m.ttl, 4) && b[k + 16] == m.priority
      && (m.segment == DELETED ==> b[k..k + 4] == [0xFF, 0xFF, 0xFF, 0xFF])
  {
    hide Le, Flatten, TailFields;
    TailWidths(m);
    LeBytes(DELETED);
    TailLayout(m);
    var t, b, k := Flatten(TailFields(m)), EncodeMutation(m), |m.key|;
    assert b[1..1 + k] == t[..k] && b[1 + k..5 + k] == t[k..k + 4] && b[5 + k..9 + k] == t[k + 4..k + 8];
    assert b[9 + k..13 + k] == t[k + 8..k + 12] && b[13 + k..17 + k] == t[k + 12..k + 16];
    assert b[17 + k] == t[k + 16];
  }

  lemma TailLayout(m: Mutation)
    ensures var t, k := Flatten(TailFields(m)), |m.key|;
      && |t| == k + 17 && t[..k] == m.key && t[k..k + 4] == Le(m.segment, 4) && t[k + 4..k + 8] == Le(m.offset, 4)
      && t[k + 8..k + 12] == Le(m.ts, 4) && t[k + 12..k + 16] == Le(m.ttl, 4) && t[k + 16] == m.priority
  {
    hide Le, Flatten;
    var fs := TailFields(m);
    TailWidths(m);
    FlattenNothing();
    assert fs[..0] == [];
    BlockAt(fs, 0);
    BlockAt(fs, 1);
    BlockAt(fs, 2);
    BlockAt(fs, 3);
    BlockAt(fs, 4);
    BlockAt(fs, 5);
    assert Flatten(fs)[|m.key| + 16] == Flatten(fs)[|m.key| + 16..|m.key| + 17][0];
  }

  lemma TailWidths(m: Mutation)
    ensures Widths(TailFields(m)) == [|m.key|, 4, 4, 4, 4, 1]
    ensures |EncodeMutation(m)| == MUTATION_SIZE + |m.key|
  {
    FlattenSize(TailFields(m));
    SumOfTail(|m.key|);
    assert Widths(TailFields(m)) == [|m.key|, 4, 4, 4, 4, 1];
  }

  lemma ParseEncodedMutation(m: Mutation, rest: Bytes)
    ensures ParseMutation(EncodeMutation(m) + rest) == Some(m)
  {
    var f := EncodeMutation(m) + rest;
    assert f[1..] == Flatten(TailFields(m)) + rest;
    TailWidths(m);
    ReadRoundTrip(TailFields(m), rest);
    Uint32RoundTrip(m.segment);
    Uint32RoundTrip(m.offset);
    Uint32RoundTrip(m.ts);
    Uint32RoundTrip(m.ttl);
  }

  lemma ParseTornMutation(m: Mutation, t: Bytes)
    requires t <= EncodeMutation(m) && |t| < |EncodeMutation(m)|
    ensures ParseMutation(t) == None
  {
    TailWidths(m);
    SumOfTail(|m.key|);
    if t != [] {
      ReadShort(t[1..], [t[0], 4, 4, 4, 4, 1]);
    }
  }

  lemma MutationsCons(m: Mutation, rest: Bytes)
    ensures Mutations(EncodeMutation(m) + rest) == [m] + Mutations(rest)
  {
    ParseEncodedMutation(m, rest);
    TailWidths(m);
    assert (EncodeMutation(m) + rest)[MUTATION_SIZE + |m.key|..] == rest;
  }

  lemma EncodeMutationsConcat(a: seq<Mutation>, b: seq<Mutation>)
    ensures EncodeMutations(a + b) == EncodeMutations(a) + EncodeMutations(b)
  {
    assert MutationBlocks(a + b) == MutationBlocks(a) + MutationBlocks(b);
    FlattenConcat(MutationBlocks(a), MutationBlocks(b));
  }

  lemma EncodeMutationsOne(m: Mutation)
    ensures EncodeMutations([m]) == EncodeMutation(m)
  {
    assert MutationBlocks([m]) == [EncodeMutation(m)];
    FlattenOne(EncodeMutation(m));
  }

  lemma {:induction false} MutationsRoundTrip(ms: seq<Mutation>, t: Bytes)
    requires Mutations(t) == []
    ensures Mutations(EncodeMutations(ms) + t) == ms
    decreases |ms|
  {
    if ms == [] {
      assert EncodeMutations(ms) + t == t;
    } else {
      hide EncodeMutation;
      var rest := EncodeMutations(ms[1..]) + t;
      assert ms == [ms[0]] + ms[1..];
      EncodeMutationsConcat([ms[0]], ms[1..]);
      EncodeMutationsOne(ms[0]);
      assert EncodeMutations(ms) + t == EncodeMutation(ms[0]) + rest;
      MutationsCons(ms[0], rest);
      MutationsRoundTrip(ms[1..], t);
    }
  }

  /** Cut the index file at any byte: what loads is the index after the whole mutations that are left. */
  lemma PrefixLoads(ms: seq<Mutation>, p: Bytes) returns (j: nat)
    requires p <= EncodeMutations(ms)
    ensures j <= |ms| && Mutations(p) == ms[..j]
    ensures EncodeMutations(ms[..j]) <= p
    ensures j < |ms| ==> |p| < |EncodeMutations(ms[..j + 1])|
  {
    var t: Bytes;
    j, t := PrefixOfBlocks(MutationBlocks(ms), p);
    assert MutationBlocks(ms)[..j] == MutationBlocks(ms[..j]);
    if j < |ms| {
      assert MutationBlocks(ms)[j] == EncodeMutation(ms[j]);
      ParseTornMutation(ms[j], t);
      assert ms[..j + 1] == ms[..j] + [ms[j]];
      EncodeMutationsConcat(ms[..j], [ms[j]]);
      EncodeMutationsOne(ms[j]);
    } else {
      assert ParseMutation([]) == None;
    }
    MutationsRoundTrip(ms[..j], t);
  }

  lemma Uint24Stored(u: Uint24)
    ensures SetUint24(u.Get()) == u
  {
    var x := u.Get();
    assert x % 256 == u.b0 && x / 256 == u.b1 as int + 256 * u.b2 as int;
  }

  /** The mutation a bulk rewrite logs for one index entry. */
  function BulkMutation(k: Key, e: Entry): Mutation {
    Mutation(k, e.segment, e.offset.Get(), e.ts, e.ttl.Get(), e.priority)
  }

  /** A bulk-written entry replays to itself. */
  lemma BulkEntry(ix: Index, k: Key, e: Entry)
    ensures Apply(ix, BulkMutation(k, e)) == ix[k := e]
  {
    Uint24Stored(e.offset);
    Uint24Stored(e.ttl);
  }

  lemma ReplayAppend(ms: seq<Mutation>, m: Mutation)
    ensures Replay(ms + [m]) == Apply(Replay(ms), m)
  {
  }

  /** The mutations replayed over an index that is there already. */
  function ReplayOn(base: Index, ms: seq<Mutation>): Index {
    if ms == [] then base else Apply(ReplayOn(base, ms[..|ms|-1]), ms[|ms|-1])
  }

  lemma ReplayOnAppend(base: Index, ms: seq<Mutation>, m: Mutation)
    ensures ReplayOn(base, ms + [m]) == Apply(ReplayOn(base, ms), m)
  {
  }

  lemma {:induction false} ReplayOnNothing(ms: seq<Mutation>)
    ensures ReplayOn(map[], ms) == Replay(ms)
    decreases |ms|
  {
    if ms != [] {
      ReplayOnNothing(ms[..|ms|-1]);
    }
  }

  ghost predicate Mentions(ms: seq<Mutation>, k: Key) {
    exists i :: 0 <= i < |ms| && ms[i].key == k
  }

  /** A key the mutations mention ends up as they alone would leave it, any other as it was. */
  lemma {:induction false} ReplayOnKey(base: Index, ms: seq<Mutation>, k: Key)
    ensures var r, p := ReplayOn(base, ms), Replay(ms);
      if Mentions(ms, k) then (k in r <==> k in p) && (k in p ==> r[k] == p[k])
      else k !in p && (k in r <==> k in base) && (k in base ==> r[k] == base[k])
    decreases |ms|
  {
    if ms != [] {
      var n := |ms| - 1;
      ReplayOnKey(base, ms[..n], k);
      assert Mentions(ms, k) <==> Mentions(ms[..n], k) || ms[n].key == k by {
        if Mentions(ms[..n], k) {
          var i :| 0 <= i < n && ms[..n][i].key == k;
          assert ms[i].key == k;
        }
      }
    }
  }

  /** Replaying mutations over their own result changes nothing. */
  lemma ReplayAgain(ms: seq<Mutation>)
    ensures ReplayOn(Replay(ms), ms) == Replay(ms)
  {
    forall k
      ensures k in ReplayOn(Replay(ms), ms) <==> k in Replay(ms)
      ensures k in Replay(ms) ==> ReplayOn(Replay(ms), ms)[k] == Replay(ms)[k]
    {
      ReplayOnKey(Replay(ms), ms, k);
    }
  }

  /** Logging a put or a remove keeps the replayed index and the scanned log in step. */
  lemma IndexStep(log: seq<Loc>, l: Loc)
    ensures IndexOf(log + [l]) == if l.rec.IsDelete() then IndexOf(log) - {l.rec.key}
              else IndexOf(log)[l.rec.key := EntryOf(l)]
  {
  }

  lemma MutationsUnfold(f: Bytes)
    ensures var p := ParseMutation(f);
      && (p.None? ==> Mutations(f) == [])
      && (p.Some? ==> MUTATION_SIZE + |p.value.key| <= |f|
                      && Mutations(f) == [p.value] + Mutations(f[MUTATION_SIZE + |p.value.key|..]))
  {
    MutationFits(f);
  }

  /** One turn of the replay loop. */
  lemma MutationsStep(f: Bytes, off: nat, done: seq<Mutation>)
    requires off <= |f| && Mutations(f) == done + Mutations(f[off..])
    ensures var p := ParseMutation(f[off..]);
      && (p.None? ==> Mutations(f) == done)
      && (p.Some? ==>
            var next := off + MUTATION_SIZE + |p.value.key|;
            && next <= |f|
            && Mutations(f) == (done + [p.value]) + Mutations(f[next..])
            && Replay(done + [p.value]) == Apply(Replay(done), p.value))
  {
    hide Mutations, ParseMutation;
    var p := ParseMutation(f[off..]);
    MutationsUnfold(f[off..]);
    if p.Some? {
      var size := MUTATION_SIZE + |p.value.key|;
      assert f[off..][size..] == f[off + size..];
      ReplayAppend(done, p.value);
    }
  }

  /** The part of an index that has been bulk-written replays to exactly that part. */
  lemma BulkStep(ix: Index, todo: set<Key>, k: Key, ms: seq<Mutation>)
    requires k in todo && k in ix
    requires Replay(ms) == map j | j in ix && j !in todo :: ix[j]
    ensures Replay(ms + [BulkMutation(k, ix[k])]) == map j | j in ix && j !in todo - {k} :: ix[j]
    ensures EncodeMutations(ms + [BulkMutation(k, ix[k])])
              == EncodeMutations(ms) + EncodeMutation(BulkMutation(k, ix[k]))
  {
    var m := BulkMutation(k, ix[k]);
    BulkEntry(Replay(ms), k, ix[k]);
    ReplayAppend(ms, m);
    EncodeMutationsConcat(ms, [m]);
    EncodeMutationsOne(m);
  }

  /** What a bulk rewrite writes: entries of different keys, and no removal. */
  ghost predicate Bulk(ms: seq<Mutation>) {
    && (forall i :: 0 <= i < |ms| ==> ms[i].segment != DELETED)
    && (forall i, j :: 0 <= i < j < |ms| ==> ms[i].key != ms[j].key)
  }

  lemma BulkPrefix(ms: seq<Mutation>, j: nat)
    requires Bulk(ms) && j <= |ms|
    ensures Bulk(ms[..j])
  {
  }

  lemma {:induction false} BulkKeys(ms: seq<Mutation>)
    requires Bulk(ms)
    ensures forall k :: k in Replay(ms) <==> Mentions(ms, k)
    decreases |ms|
  {
    if ms != [] {
      var n := |ms| - 1;
      BulkPrefix(ms, n);
      BulkKeys(ms[..n]);
      forall k
        ensures Mentions(ms, k) <==> Mentions(ms[..n], k) || ms[n].key == k
      {
        if Mentions(ms[..n], k) {
          var i :| 0 <= i < n && ms[..n][i].key == k;
          assert ms[i].key == k;
        }
      }
    }
  }

  /** Each entry of a bulk rewrite adds one key and changes no other. */
  lemma BulkAdds(ms: seq<Mutation>, j: nat)
    requires Bulk(ms) && j < |ms|
    ensures var now, next := Replay(ms[..j]), Replay(ms[..j + 1]);
      ms[j].key !in now && ms[j].key in next && forall k :: k in now ==> k in next && next[k] == now[k]
  {
    hide Replay, Mentions;
    BulkPrefix(ms, j);
    BulkKeys(ms[..j]);
    assert ms[..j + 1] == ms[..j] + [ms[j]];
    ReplayAppend(ms[..j], ms[j]);
    NotMentioned(ms, j);
  }

  lemma NotMentioned(ms: seq<Mutation>, j: nat)
    requires Bulk(ms) && j < |ms|
    ensures !Mentions(ms[..j], ms[j].key)
  {
    forall i | 0 <= i < j
      ensures ms[..j][i].key != ms[j].key
    {
    }
  }

  lemma {:induction false} BulkGrows(ms: seq<Mutation>, j: nat)
    requires Bulk(ms) && j <= |ms|
    ensures forall k :: k in Replay(ms[..j]) ==> k in Replay(ms) && Replay(ms[..j])[k] == Replay(ms)[k]
    ensures j < |ms| ==> ms[j].key !in Replay(ms[..j]) && ms[j].key in Replay(ms)
    decreases |ms| - j
  {
    hide Replay, Bulk;
    if j == |ms| {
      assert ms[..j] == ms;
    } else {
      BulkAdds(ms, j);
      BulkGrows(ms, j + 1);
    }
  }

  /** A cut rewrite loads a part of the index, and all of it exactly when no byte is missing. */
  lemma BulkCut(f: Bytes, ms: seq<Mutation>)
    requires Bulk(ms) && f <= EncodeMutations(ms)
    ensures forall k :: k in Replay(Mutations(f)) ==> k in Replay(ms) && Replay(Mutations(f))[k] == Replay(ms)[k]
    ensures Replay(Mutations(f)) == Replay(ms) <==> f == EncodeMutations(ms)
  {
    hide EncodeMutations, Mutations, Replay, Bulk;
    var j := PrefixLoads(ms, f);
    BulkGrows(ms, j);
    if j == |ms| {
      assert ms[..j] == ms;
    } else {
      assert ms == ms[..j + 1] + ms[j + 1..];
      EncodeMutationsConcat(ms[..j + 1], ms[j + 1..]);
    }
  }
}
