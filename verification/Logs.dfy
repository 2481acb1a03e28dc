/** The global log a store's segments hold, and the maps it denotes. */
module Logs {
  import opened Bytes
  import opened Records

  const MAX_OFFSET: nat := 0x100_0000
  const MAX_SEGMENTS: nat := 255

  /** The records of each segment, segment 0 first; a missing segment has none. */
  type Segs = seq<seq<Record>>

  /** A record at its place on disk. */
  datatype Loc = Loc(seg: nat, off: nat, rec: Record)

  /** One entry of the in-memory index, in the widths the index keeps. */
  datatype Entry = Entry(segment: Byte, offset: Uint24, ts: Uint32, ttl: Uint24, priority: Byte)

  type Index = map<Key, Entry>

  function EntryOf(l: Loc): Entry {
    Entry(Wrap8(l.seg), SetUint24(Wrap32(l.off)), l.rec.ts, SetUint24(l.rec.ttl), l.rec.priority)
  }

  /** The records `rs` as they lie in segment `seg`. */
  function Located(seg: nat, rs: seq<Record>): (ls: seq<Loc>)
    ensures |ls| == |rs|
    ensures forall i :: 0 <= i < |rs| ==> ls[i].seg == seg && ls[i].rec == rs[i]
  {
    seq(|rs|, i requires 0 <= i < |rs| => Loc(seg, Offset(rs, i), rs[i]))
  }

  /** The records of segments `a..b-1`, in scan order. */
  function LogRange(segs: Segs, a: nat, b: nat): seq<Loc>
    requires b <= |segs|
  {
    if b <= a then [] else LogRange(segs, a, b - 1) + Located(b - 1, segs[b - 1])
  }

  function LogOf(segs: Segs): seq<Loc> {
    LogRange(segs, 0, |segs|)
  }

  /** Last write wins, a tombstone removes. */
  function Final(log: seq<Loc>): map<Key, Loc> {
    if log == [] then map[]
    else
      var before, l := Final(log[..|log|-1]), log[|log|-1];
      if l.rec.IsDelete() then before - {l.rec.key} else before[l.rec.key := l]
  }

  function IndexOf(log: seq<Loc>): Index {
    var m := Final(log);
    map k | k in m :: EntryOf(m[k])
  }

  /** The key-to-record map a log stands for, wherever its records lie. */
  function Contents(log: seq<Loc>): map<Key, Record> {
    var m := Final(log);
    map k | k in m :: m[k].rec
  }

  /** The last record in the log that mentions `k`. */
  function Last(log: seq<Loc>, k: Key): Option<Loc> {
    if log == [] then None
    else if log[|log|-1].rec.key == k then Some(log[|log|-1])
    else Last(log[..|log|-1], k)
  }

  lemma {:induction false} LastConcat(a: seq<Loc>, b: seq<Loc>, k: Key)
    ensures Last(a + b, k) == if Last(b, k).Some? then Last(b, k) else Last(a, k)
    decreases |b|
  {
    if b == [] {
      assert a + b == a;
    } else {
      assert (a + b)[..|a + b| - 1] == a + b[..|b|-1];
      LastConcat(a, b[..|b|-1], k);
    }
  }

  /** The fold keeps for each key exactly its last mention, when that is not a tombstone. */
  lemma {:induction false} FinalIsLast(log: seq<Loc>, k: Key)
    ensures k in Final(log) <==> Last(log, k).Some? && !Last(log, k).value.rec.IsDelete()
    ensures k in Final(log) ==> Final(log)[k] == Last(log, k).value
    ensures Last(log, k).Some? ==> Last(log, k).value.rec.key == k && Last(log, k).value in log
    decreases |log|
  {
    if log != [] {
      FinalIsLast(log[..|log|-1], k);
    }
  }

  lemma {:induction false} LastOfMember(log: seq<Loc>, l: Loc)
    requires l in log
    ensures Last(log, l.rec.key).Some?
    decreases |log|
  {
    if log[|log|-1].rec.key != l.rec.key {
      LastOfMember(log[..|log|-1], l);
    }
  }

  ghost predicate Submap<K, V>(a: map<K, V>, b: map<K, V>) {
    forall k :: k in a ==> k in b && a[k] == b[k]
  }

  /** Every place fits the index's field widths and holds one record. */
  ghost predicate Addressable(log: seq<Loc>) {
    && (forall i :: 0 <= i < |log| ==> log[i].seg < 256 && log[i].off < MAX_OFFSET)
    && (forall i, j :: 0 <= i < j < |log| ==> log[i].seg != log[j].seg || log[i].off != log[j].off)
  }

  lemma EntryOfInjective(log: seq<Loc>, a: Loc, b: Loc)
    requires Addressable(log) && a in log && b in log && EntryOf(a) == EntryOf(b)
    ensures a == b
  {
    var i :| 0 <= i < |log| && log[i] == a;
    var j :| 0 <= j < |log| && log[j] == b;
    SamePlace(a, b);
  }

  lemma SamePlace(a: Loc, b: Loc)
    requires a.seg < 256 && b.seg < 256 && a.off < MAX_OFFSET && b.off < MAX_OFFSET
    requires EntryOf(a) == EntryOf(b)
    ensures a.seg == b.seg && a.off == b.off
  {
    Uint24Injective(a.off, b.off);
  }

  /** Segments no longer than the offset field allows give an addressable log. */
  lemma {:induction false} LogRangeAddressable(segs: Segs, a: nat, b: nat)
    requires b <= |segs| <= 256
    requires forall i :: a <= i < b ==> SizeOf(segs[i]) <= MAX_OFFSET
    ensures Addressable(LogRange(segs, a, b))
    ensures forall l :: l in LogRange(segs, a, b) ==> a <= l.seg < b
    decreases b
  {
    if a < b {
      LogRangeAddressable(segs, a, b - 1);
      LocatedAddressable(b - 1, segs[b - 1]);
    }
  }

  lemma OffsetOfAll(rs: seq<Record>)
    ensures Offset(rs, |rs|) == SizeOf(rs)
  {
    assert rs[..|rs|] == rs;
  }

  lemma LocatedAddressable(seg: nat, rs: seq<Record>)
    requires seg < 256 && SizeOf(rs) <= MAX_OFFSET
    ensures Addressable(Located(seg, rs))
  {
    hide Offset, SizeOf;
    assert Offset(rs, |rs|) == SizeOf(rs) by {
      OffsetOfAll(rs);
    }
    forall i, j | 0 <= i < j <= |rs|
      ensures Offset(rs, i) < Offset(rs, j) <= MAX_OFFSET
    {
      OffsetGrows(rs, i, j);
      if j < |rs| {
        OffsetGrows(rs, j, |rs|);
      }
    }
  }

  lemma {:induction false} LogRangeSplit(segs: Segs, a: nat, m: nat, b: nat)
    requires a <= m <= b <= |segs|
    ensures LogRange(segs, a, b) == LogRange(segs, a, m) + LogRange(segs, m, b)
    decreases b
  {
    if m < b {
      LogRangeSplit(segs, a, m, b - 1);
    }
  }

  lemma {:induction false} LogRangeSame(s: Segs, t: Segs, a: nat, b: nat)
    requires b <= |s| && b <= |t|
    requires forall i :: a <= i < b ==> s[i] == t[i]
    ensures LogRange(s, a, b) == LogRange(t, a, b)
    decreases b
  {
    if a < b {
      LogRangeSame(s, t, a, b - 1);
    }
  }

  lemma {:induction false} LogRangeEmpty(s: Segs, a: nat, b: nat)
    requires b <= |s|
    requires forall i :: a <= i < b ==> s[i] == []
    ensures LogRange(s, a, b) == []
    decreases b
  {
    if a < b {
      LogRangeEmpty(s, a, b - 1);
    }
  }

  /** The log when segment 0 holds `rs`, segments `1..cut-1` hold nothing and the others are those of `segs`. */
  lemma LogFromSegZero(s: Segs, segs: Segs, rs: seq<Record>, cut: nat)
    requires 1 <= cut <= |s| == |segs| && s[0] == rs
    requires forall i :: 1 <= i < cut ==> s[i] == []
    requires forall i :: cut <= i < |s| ==> s[i] == segs[i]
    ensures LogOf(s) == Located(0, rs) + LogRange(segs, cut, |segs|)
  {
    hide Located;
    var n := |s|;
    LogRangeSplit(s, 0, 1, n);
    LogRangeSplit(s, 1, cut, n);
    LogRangeEmpty(s, 1, cut);
    LogRangeSame(s, segs, cut, n);
    assert LogRange(s, 0, 1) == LogRange(s, 0, 0) + Located(0, rs);
  }

  /** Appending to the last segment in use appends to the log. */
  lemma {:induction false} LogAppend(segs: Segs, cur: nat, r: Record)
    requires cur < |segs|
    requires forall i :: cur < i < |segs| ==> segs[i] == []
    ensures LogOf(segs[cur := segs[cur] + [r]]) == LogOf(segs) + [Loc(cur, SizeOf(segs[cur]), r)]
  {
    hide Located, SizeOf;
    var next := segs[cur := segs[cur] + [r]];
    var n := |segs|;
    LogRangeSplit(segs, 0, cur + 1, n);
    LogRangeSplit(next, 0, cur + 1, n);
    LogRangeEmpty(segs, cur + 1, n);
    LogRangeEmpty(next, cur + 1, n);
    LogRangeSame(segs, next, 0, cur);
    LocatedAppend(cur, segs[cur], r);
  }

  lemma LocatedAppend(seg: nat, rs: seq<Record>, r: Record)
    ensures Located(seg, rs + [r]) == Located(seg, rs) + [Loc(seg, SizeOf(rs), r)]
  {
    forall i | 0 <= i <= |rs|
      ensures (rs + [r])[..i] == rs[..i]
    {
    }
    assert rs[..|rs|] == rs;
  }
}
