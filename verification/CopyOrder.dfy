/** The order in which compaction visits a segment: the live offsets, ascending. */
module CopyOrder {
  import opened Bytes
  import opened Records
  import opened Logs
  import opened Compaction

  ghost predicate Ascending(s: seq<nat>) {
    forall i, j :: 0 <= i < j < |s| ==> s[i] < s[j]
  }

  ghost predicate Distinct(s: seq<nat>) {
    forall i, j :: 0 <= i < j < |s| ==> s[i] != s[j]
  }

  ghost predicate SameElements(s: seq<nat>, t: seq<nat>) {
    forall x :: x in s <==> x in t
  }

  method SortOffsets(offsets: seq<nat>) returns (sorted: seq<nat>)
    requires Distinct(offsets)
    ensures Ascending(sorted) && SameElements(sorted, offsets)
  {
    sorted := [];
    for i := 0 to |offsets|
      invariant Ascending(sorted) && SameElements(sorted, offsets[..i])
    {
      var x := offsets[i];
      var p := 0;
      while p < |sorted| && sorted[p] < x
        invariant p <= |sorted|
        invariant forall j :: 0 <= j < p ==> sorted[j] < x
      {
        p := p + 1;
      }
      InsertAscending(sorted, p, x);
      assert offsets[..i + 1] == offsets[..i] + [x];
      sorted := sorted[..p] + [x] + sorted[p..];
    }
    assert offsets[..|offsets|] == offsets;
  }

  lemma InsertAscending(s: seq<nat>, p: nat, x: nat)
    requires Ascending(s) && p <= |s| && x !in s
    requires forall j :: 0 <= j < p ==> s[j] < x
    requires p < |s| ==> x <= s[p]
    ensures Ascending(s[..p] + [x] + s[p..])
    ensures forall y :: y in s[..p] + [x] + s[p..] <==> y == x || y in s
  {
  }

  lemma TailElement(s: seq<nat>, x: nat)
    requires Ascending(s) && s != []
    ensures x in s[1..] <==> x in s && x != s[0]
  {
  }

  /** An ascending list is determined by its elements. */
  lemma {:induction false} AscendingUnique(s: seq<nat>, t: seq<nat>)
    requires Ascending(s) && Ascending(t) && SameElements(s, t)
    ensures s == t
    decreases |s|
  {
    assert t != [] ==> t[0] in t;
    if s != [] {
      assert s[0] in s;
      assert t != [];
      assert t[0] in t;
      var i :| 0 <= i < |t| && t[i] == s[0];
      var j :| 0 <= j < |s| && s[j] == t[0];
      assert s[0] == t[0];
      forall x
        ensures x in s[1..] <==> x in t[1..]
      {
        TailElement(s, x);
        TailElement(t, x);
      }
      AscendingUnique(s[1..], t[1..]);
    }
  }

  function Offs(log: seq<Loc>): (s: seq<nat>)
    ensures |s| == |log|
  {
    seq(|log|, i requires 0 <= i < |log| => log[i].off)
  }

  /** The live records of one segment. */
  function LiveIn(sw: Sweep, s: nat): seq<Loc>
    requires s < |sw.segs|
  {
    Live(Located(s, sw.segs[s]), sw.keep)
  }

  lemma {:induction false} LiveAscends(log: seq<Loc>, keep: Index)
    requires Ascending(Offs(log))
    ensures Ascending(Offs(Live(log, keep)))
    decreases |log|
  {
    if log != [] {
      var n := |log| - 1;
      assert Offs(log)[..n] == Offs(log[..n]);
      LiveAscends(log[..n], keep);
      LiveMembers(log[..n], keep);
      var live := Live(log[..n], keep);
      forall i | 0 <= i < |live|
        ensures live[i].off < log[n].off
      {
        assert live[i] in log[..n];
        var j :| 0 <= j < n && log[j] == live[i];
        assert Offs(log)[j] < Offs(log)[n];
      }
      assert forall i :: 0 <= i < |live| ==> Offs(live)[i] == live[i].off;
    }
  }

  lemma LocatedAscends(seg: nat, rs: seq<Record>)
    ensures Ascending(Offs(Located(seg, rs)))
  {
    forall i, j | 0 <= i < j < |rs|
      ensures Offset(rs, i) < Offset(rs, j)
    {
      OffsetGrows(rs, i, j);
    }
  }

  /** An entry points into segment `s` at `off`. */
  predicate PointsAt(e: Entry, s: nat, off: nat) {
    e.segment == s && e.offset.Get() == off
  }

  lemma EntryPoints(l: Loc)
    requires l.seg < 256 && l.off < MAX_OFFSET
    ensures PointsAt(EntryOf(l), l.seg, l.off)
  {
  }

  lemma FromSegment(sw: Sweep, s: nat, l: Loc)
    requires sw.Sound() && s < |sw.segs|
    ensures l in Located(s, sw.segs[s]) <==> l in sw.Log() && l.seg == s
  {
    var n := |sw.segs|;
    LogRangeSplit(sw.segs, 0, s + 1, n);
    LogSegs(sw.segs, 0, s);
    LogSegs(sw.segs, s + 1, n);
    assert sw.Log() == LogRange(sw.segs, 0, s) + Located(s, sw.segs[s]) + LogRange(sw.segs, s + 1, n);
  }

  lemma {:induction false} LogSegs(segs: Segs, a: nat, b: nat)
    requires b <= |segs|
    ensures forall l :: l in LogRange(segs, a, b) ==> a <= l.seg < b
    decreases b
  {
    if a < b {
      LogSegs(segs, a, b - 1);
    }
  }

  /** The final place of a kept key is where its entry points. */
  lemma KeptPoints(sw: Sweep, k: Key) returns (l: Loc)
    requires sw.Sound() && k in sw.keep
    ensures l in sw.Log() && l.rec.key == k && Kept(l, sw.keep) && l == Final(sw.Log())[k]
    ensures PointsAt(sw.keep[k], l.seg, l.off)
  {
    FinalIsLast(sw.Log(), k);
    l := Final(sw.Log())[k];
    EntryPoints(l);
  }

  /** Different entries point at different places. */
  ghost predicate PlacesDiffer(ix: Index) {
    forall j, k :: j in ix && k in ix && j != k ==> !PointsAt(ix[j], ix[k].segment, ix[k].offset.Get())
  }

  lemma KeptPlacesDiffer(sw: Sweep)
    requires sw.Sound()
    ensures PlacesDiffer(sw.keep)
  {
    forall j, k | j in sw.keep && k in sw.keep && PointsAt(sw.keep[j], sw.keep[k].segment, sw.keep[k].offset.Get())
      ensures j == k
    {
      var a := KeptPoints(sw, j);
      var b := KeptPoints(sw, k);
      SamePlaceSameLoc(sw.Log(), a, b);
    }
  }

  lemma SamePlaceSameLoc(log: seq<Loc>, a: Loc, b: Loc)
    requires Addressable(log) && a in log && b in log && a.seg == b.seg && a.off == b.off
    ensures a == b
  {
  }

  /** The offsets collected from the index, sorted, are those of the segment's live records in file order. */
  lemma CollectedAreLive(sw: Sweep, s: nat, sorted: seq<nat>)
    requires sw.Sound() && s < |sw.segs| && Ascending(sorted)
    requires forall o :: o in sorted <==> exists k :: k in sw.keep && PointsAt(sw.keep[k], s, o)
    ensures sorted == Offs(LiveIn(sw, s))
  {
    var live := LiveIn(sw, s);
    LocatedAscends(s, sw.segs[s]);
    LiveAscends(Located(s, sw.segs[s]), sw.keep);
    LiveMembers(Located(s, sw.segs[s]), sw.keep);
    forall o
      ensures o in sorted <==> o in Offs(live)
    {
      if o in sorted {
        var k :| k in sw.keep && PointsAt(sw.keep[k], s, o);
        var l := KeptPoints(sw, k);
        FromSegment(sw, s, l);
        var i :| 0 <= i < |live| && live[i] == l;
        assert Offs(live)[i] == o;
      }
      if o in Offs(live) {
        var i :| 0 <= i < |live| && Offs(live)[i] == o;
        var l := live[i];
        assert l in live;
        FromSegment(sw, s, l);
        EntryPoints(l);
        assert l.rec.key in sw.keep && PointsAt(sw.keep[l.rec.key], s, o);
      }
    }
    AscendingUnique(sorted, Offs(live));
  }

  /** Live record `i` of segment `s`, as it lies in the file. */
  lemma LivePlace(sw: Sweep, s: nat, i: nat) returns (j: nat)
    requires s < |sw.segs| && i < |LiveIn(sw, s)|
    ensures j < |sw.segs[s]| && LiveIn(sw, s)[i].rec == sw.segs[s][j] && LiveIn(sw, s)[i].off == Offset(sw.segs[s], j)
  {
    var live := LiveIn(sw, s);
    LiveMembers(Located(s, sw.segs[s]), sw.keep);
    assert live[i] in live;
    j :| 0 <= j < |sw.segs[s]| && Located(s, sw.segs[s])[j] == live[i];
  }

  /** The offsets in segment `s` of the entries visited so far. */
  ghost predicate Collected(keep: Index, todo: set<Key>, s: nat, offsets: seq<nat>) {
    && Distinct(offsets)
    && forall o :: o in offsets <==> exists k :: k in keep && k !in todo && PointsAt(keep[k], s, o)
  }

  lemma CollectSkip(keep: Index, todo: set<Key>, k: Key, s: nat, offsets: seq<nat>)
    requires Collected(keep, todo, s, offsets)
    requires k in keep ==> keep[k].segment != s
    ensures Collected(keep, todo - {k}, s, offsets)
  {
  }

  /** No entry visited before points where this one does. */
  lemma NotYetCollected(keep: Index, todo: set<Key>, k: Key, s: nat, offsets: seq<nat>)
    requires Collected(keep, todo, s, offsets) && PlacesDiffer(keep)
    requires k in todo && k in keep && keep[k].segment == s
    ensures keep[k].offset.Get() !in offsets
  {
  }

  lemma CollectTake(keep: Index, todo: set<Key>, k: Key, s: nat, offsets: seq<nat>)
    requires Collected(keep, todo, s, offsets) && PlacesDiffer(keep)
    requires k in todo && k in keep && keep[k].segment == s
    ensures Collected(keep, todo - {k}, s, offsets + [keep[k].offset.Get()])
  {
    hide PlacesDiffer;
    NotYetCollected(keep, todo, k, s, offsets);
    var x := keep[k].offset.Get();
    forall o
      ensures o in offsets + [x] <==> exists j :: j in keep && j !in todo - {k} && PointsAt(keep[j], s, o)
    {
      if o == x {
        assert PointsAt(keep[k], s, o);
      }
      if j :| j in keep && j !in todo - {k} && PointsAt(keep[j], s, o) {
        assert j == k || j !in todo;
      }
    }
  }

  /** compact.tmp after `i` of segment `s`'s live records. */
  function Partial(sw: Sweep, s: nat, i: nat): seq<Record>
    requires s < |sw.segs| && i <= |LiveIn(sw, s)|
  {
    sw.Copied(s) + Recs(LiveIn(sw, s)[..i])
  }

  lemma PartialStep(sw: Sweep, s: nat, i: nat)
    requires s < |sw.segs| && i < |LiveIn(sw, s)|
    ensures EncodeAll(Partial(sw, s, i + 1)) == EncodeAll(Partial(sw, s, i)) + Encode(LiveIn(sw, s)[i].rec)
    ensures EncodeAll(Partial(sw, s, i + 1)) <= EncodeAll(sw.Copied(s + 1))
  {
    hide LogRange, Located, Live, Encode;
    var live := LiveIn(sw, s);
    var r := live[i].rec;
    assert Partial(sw, s, i + 1) == Partial(sw, s, i) + [r];
    EncodeAllConcat(Partial(sw, s, i), [r]);
    EncodeAllOne(r);
    CopiedStep(sw, s);
    assert sw.Copied(s + 1) == Partial(sw, s, i + 1) + Recs(live[i + 1..]);
    EncodeAllConcat(Partial(sw, s, i + 1), Recs(live[i + 1..]));
  }

  lemma PartialEnds(sw: Sweep, s: nat)
    requires s < |sw.segs|
    ensures Partial(sw, s, 0) == sw.Copied(s)
    ensures Partial(sw, s, |LiveIn(sw, s)|) == sw.Copied(s + 1)
  {
    var live := LiveIn(sw, s);
    assert live[..|live|] == live;
    CopiedStep(sw, s);
  }

  /** Seeking to a live record's offset and reading gives that record. */
  lemma ReadLive(sw: Sweep, s: nat, i: nat, f: Bytes)
    requires s < |sw.segs| && i < |LiveIn(sw, s)| && f == EncodeAll(sw.segs[s])
    ensures var l := LiveIn(sw, s)[i];
      l.off <= |f| && ReadRaw(f[l.off..]) == Some(Raw(Header(l.rec), l.rec.key, l.rec.value))
  {
    var j := LivePlace(sw, s, i);
    RecordAt(sw.segs[s], j);
    ReadRawEncoded(sw.segs[s][j], EncodeAll(sw.segs[s][j + 1..]));
  }
}
