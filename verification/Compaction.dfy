/** What compaction leaves on disk at each moment, and why every such moment can be recovered from. */
module Compaction {
  import opened Records
  import opened Logs

  /** The loc is the one an entry of `keep` points at. */
  predicate Kept(l: Loc, keep: Index) {
    l.rec.key in keep && keep[l.rec.key] == EntryOf(l)
  }

  /** The part of a log that compaction copies. */
  function Live(log: seq<Loc>, keep: Index): seq<Loc> {
    if log == [] then []
    else
      var before, l := Live(log[..|log|-1], keep), log[|log|-1];
      if Kept(l, keep) then before + [l] else before
  }

  function Recs(log: seq<Loc>): (rs: seq<Record>)
    ensures |rs| == |log|
  {
    seq(|log|, i requires 0 <= i < |log| => log[i].rec)
  }

  lemma {:induction false} LiveConcat(a: seq<Loc>, b: seq<Loc>, keep: Index)
    ensures Live(a + b, keep) == Live(a, keep) + Live(b, keep)
    decreases |b|
  {
    if b == [] {
      assert a + b == a;
    } else {
      assert (a + b)[..|a + b| - 1] == a + b[..|b|-1];
      LiveConcat(a, b[..|b|-1], keep);
    }
  }

  lemma {:induction false} LiveMembers(log: seq<Loc>, keep: Index)
    ensures forall l :: l in Live(log, keep) <==> l in log && Kept(l, keep)
    decreases |log|
  {
    if log != [] {
      var n := |log| - 1;
      LiveMembers(log[..n], keep);
      assert log == log[..n] + [log[n]];
    }
  }

  /** Entries of the scanned index are live exactly at their final place. */
  lemma KeptIsFinal(log: seq<Loc>, keep: Index, l: Loc)
    requires Addressable(log) && Submap(keep, IndexOf(log)) && l in log
    ensures Kept(l, keep) <==> l.rec.key in keep && l == Final(log)[l.rec.key]
  {
    if l.rec.key in keep {
      FinalIsLast(log, l.rec.key);
      var m := Final(log)[l.rec.key];
      assert keep[l.rec.key] == EntryOf(m);
      if Kept(l, keep) {
        EntryOfInjective(log, l, m);
      }
    }
  }

  /** The heart of crash recovery.  A suffix of the old log still on disk, preceded by copies of final
      records only, among them one for every kept key whose final record is not in the suffix, denotes a map
      that has every kept key and nothing that the old log did not have. */
  lemma RecoveredContents(older: seq<Loc>, cut: nat, copies: seq<Loc>, keep: set<Key>)
    requires cut <= |older|
    requires forall t :: t in copies ==> t.rec.key in Final(older) && t.rec == Final(older)[t.rec.key].rec
    requires forall k :: k in keep ==> k in Final(older)
    requires forall k :: k in keep && Final(older)[k] !in older[cut..] ==> Last(copies, k).Some?
    ensures Submap(Contents(copies + older[cut..]), Contents(older))
    ensures keep <= Contents(copies + older[cut..]).Keys
  {
    forall k: Key
      ensures k in Final(copies + older[cut..]) ==>
                k in Final(older) && Final(copies + older[cut..])[k].rec == Final(older)[k].rec
      ensures k in keep ==> k in Final(copies + older[cut..])
    {
      RecoveredKey(older, cut, copies, keep, k);
    }
  }

  lemma RecoveredKey(older: seq<Loc>, cut: nat, copies: seq<Loc>, keep: set<Key>, k: Key)
    requires cut <= |older|
    requires forall t :: t in copies ==> t.rec.key in Final(older) && t.rec == Final(older)[t.rec.key].rec
    requires k in keep ==> k in Final(older)
    requires k in keep && Final(older)[k] !in older[cut..] ==> Last(copies, k).Some?
    ensures k in Final(copies + older[cut..]) ==>
              k in Final(older) && Final(copies + older[cut..])[k].rec == Final(older)[k].rec
    ensures k in keep ==> k in Final(copies + older[cut..])
  {
    var rest := older[cut..];
    assert older == older[..cut] + rest;
    LastConcat(older[..cut], rest, k);
    LastConcat(copies, rest, k);
    FinalIsLast(older, k);
    FinalIsLast(copies + rest, k);
    FinalIsLast(rest, k);
    FinalIsLast(copies, k);
    if k in keep && Last(rest, k).None? {
      if Final(older)[k] in rest {
        LastOfMember(rest, Final(older)[k]);
        assert false;
      }
      var t := Last(copies, k).value;
      assert t.rec == Final(older)[k].rec;
    }
  }

  /** One compaction: the records it started from and the index entries it keeps. */
  datatype Sweep = Sweep(segs: Segs, keep: Index) {

    function Log(): seq<Loc> {
      LogOf(segs)
    }

    /** The records of segments `0..s-1` that compaction keeps, in the order it copies them. */
    function Copied(s: nat): seq<Record>
      requires s <= |segs|
    {
      Recs(Live(LogRange(segs, 0, s), keep))
    }

    function All(): seq<Record> {
      Copied(|segs|)
    }

    /** The kept entries agree with the segments, and every place fits an index entry. */
    ghost predicate Sound() {
      && 0 < |segs| <= MAX_SEGMENTS
      && Addressable(Log())
      && Submap(keep, IndexOf(Log()))
      && (forall l :: l in Log() ==> Storable(l.rec))
    }

    /** Contents `c` have every kept entry, and no value the old segments did not hold. */
    ghost predicate Preserved(c: map<Key, Record>) {
      Submap(c, Contents(Log())) && keep.Keys <= c.Keys
    }
  }

  /** With every final record kept, preserved means unchanged. */
  lemma PreservedExactly(sw: Sweep, c: map<Key, Record>)
    requires sw.keep == IndexOf(sw.Log())
    ensures sw.Preserved(c) <==> c == Contents(sw.Log())
  {
  }

  lemma CopiedStep(sw: Sweep, s: nat)
    requires s < |sw.segs|
    ensures sw.Copied(s + 1) == sw.Copied(s) + Recs(Live(Located(s, sw.segs[s]), sw.keep))
  {
    LiveConcat(LogRange(sw.segs, 0, s), Located(s, sw.segs[s]), sw.keep);
  }

  lemma {:induction false} CopiedGrows(sw: Sweep, s: nat, t: nat)
    requires s <= t <= |sw.segs|
    ensures sw.Copied(s) <= sw.Copied(t)
    decreases t - s
  {
    if s < t {
      CopiedGrows(sw, s, t - 1);
      CopiedStep(sw, t - 1);
    }
  }

  lemma LiveFromLog(sw: Sweep, s: nat, i: nat) returns (l: Loc)
    requires s <= |sw.segs| && i < |sw.Copied(s)|
    ensures l in LogRange(sw.segs, 0, s) && l in sw.Log() && Kept(l, sw.keep) && l.rec == sw.Copied(s)[i]
  {
    var live := Live(LogRange(sw.segs, 0, s), sw.keep);
    l := live[i];
    LiveMembers(LogRange(sw.segs, 0, s), sw.keep);
    assert l in live;
    LogRangeSplit(sw.segs, 0, s, |sw.segs|);
  }

  lemma CopiedStorable(sw: Sweep, s: nat)
    requires sw.Sound() && s <= |sw.segs|
    ensures AllStorable(sw.Copied(s))
  {
    forall i | 0 <= i < |sw.Copied(s)|
      ensures Storable(sw.Copied(s)[i])
    {
      var l := LiveFromLog(sw, s, i);
    }
  }

  /** Records copied from the segments before `cut` and the segments from `cut` on preserve the contents. */
  lemma MixedLog(sw: Sweep, cut: nat, rs: seq<Record>)
    requires sw.Sound() && cut <= |sw.segs|
    requires sw.Copied(cut) <= rs <= sw.All()
    ensures sw.Preserved(Contents(Located(0, rs) + LogRange(sw.segs, cut, |sw.segs|)))
  {
    var n := |sw.segs|;
    var copies := Located(0, rs);
    var before, rest := LogRange(sw.segs, 0, cut), LogRange(sw.segs, cut, n);
    LogRangeSplit(sw.segs, 0, cut, n);
    assert sw.Log() == before + rest;
    assert sw.Log()[|before|..] == rest;
    forall t | t in copies
      ensures t.rec.key in Final(sw.Log()) && t.rec == Final(sw.Log())[t.rec.key].rec
    {
      var i :| 0 <= i < |copies| && copies[i] == t;
      assert rs[i] == sw.All()[i];
      var l := LiveFromLog(sw, n, i);
      KeptIsFinal(sw.Log(), sw.keep, l);
    }
    forall k | k in sw.keep.Keys && Final(sw.Log())[k] !in rest
      ensures Last(copies, k).Some?
    {
      FinalIsLast(sw.Log(), k);
      var l := Final(sw.Log())[k];
      KeptIsFinal(sw.Log(), sw.keep, l);
      CopiedHas(sw, cut, rs, l);
    }
    RecoveredContents(sw.Log(), |before|, copies, sw.keep.Keys);
  }

  lemma CopiedHas(sw: Sweep, cut: nat, rs: seq<Record>, l: Loc)
    requires cut <= |sw.segs| && sw.Copied(cut) <= rs
    requires l in LogRange(sw.segs, 0, cut) && Kept(l, sw.keep)
    ensures Last(Located(0, rs), l.rec.key).Some?
  {
    var live := Live(LogRange(sw.segs, 0, cut), sw.keep);
    LiveMembers(LogRange(sw.segs, 0, cut), sw.keep);
    var i :| 0 <= i < |live| && live[i] == l;
    assert rs[i] == sw.Copied(cut)[i] == l.rec;
    assert Located(0, rs)[i].rec == l.rec;
    LastOfMember(Located(0, rs), Located(0, rs)[i]);
  }

  /** The complete copy alone preserves the contents. */
  lemma CopyAlone(sw: Sweep)
    requires sw.Sound()
    ensures sw.Preserved(Contents(Located(0, sw.All())))
  {
    MixedLog(sw, |sw.segs|, sw.All());
    assert Located(0, sw.All()) + LogRange(sw.segs, |sw.segs|, |sw.segs|) == Located(0, sw.All());
  }
}
