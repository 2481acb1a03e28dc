/** Bytes and the little-endian integer fields the on-disk structures are made of. */
module Bytes {

  type Byte = b: int | 0 <= b < 256
  type Bytes = seq<Byte>
  type Uint16 = x: int | 0 <= x < 0x1_0000
  type Uint32 = x: int | 0 <= x < 0x1_0000_0000

  const TWO_24: nat := 0x100_0000

  /** A value assigned to a `uint8_t`. */
  function Wrap8(x: nat): Byte {
    if x < 256 then x else x % 256
  }

  /** A value assigned to a `uint32_t`. */
  function Wrap32(x: nat): Uint32 {
    if x < 0x1_0000_0000 then x else x % 0x1_0000_0000
  }

  function Pow256(n: nat): nat {
    if n == 0 then 1 else 256 * Pow256(n - 1)
  }

  /** The `n` low bytes of `x`, lowest first. */
  function Le(x: nat, n: nat): (b: Bytes)
    ensures |b| == n
  {
    if n == 0 then [] else [x % 256] + Le(x / 256, n - 1)
  }

  /** The bytes of a 16-bit and of a 32-bit field. */
  lemma LeBytes(x: nat)
    ensures Le(x, 2) == [x % 256, x / 256 % 256]
    ensures Le(x, 4) == [x % 256, x / 256 % 256, x / 0x1_0000 % 256, x / 0x100_0000 % 256]
  {
    assert x / 256 / 256 == x / 0x1_0000 && x / 0x1_0000 / 256 == x / 0x100_0000;
    assert Le(x / 0x100_0000, 1) == [x / 0x100_0000 % 256];
    assert Le(x / 0x1_0000, 2) == [x / 0x1_0000 % 256, x / 0x100_0000 % 256];
    assert Le(x / 256, 3) == [x / 256 % 256, x / 0x1_0000 % 256, x / 0x100_0000 % 256];
  }

  function FromLe(b: Bytes): (x: nat)
    ensures x < Pow256(|b|)
  {
    if b == [] then 0 else b[0] as int + 256 * FromLe(b[1..])
  }

  lemma {:induction false} LeRoundTrip(x: nat, n: nat)
    requires x < Pow256(n)
    ensures FromLe(Le(x, n)) == x
  {
    if n > 0 {
      LeRoundTrip(x / 256, n - 1);
      assert Le(x, n)[1..] == Le(x / 256, n - 1);
    }
  }

  /** Writing back an integer read gives the bytes it was read from. */
  lemma {:induction false} FromLeRoundTrip(b: Bytes)
    ensures Le(FromLe(b), |b|) == b
    decreases |b|
  {
    if b != [] {
      FromLeRoundTrip(b[1..]);
      assert FromLe(b) % 256 == b[0] && FromLe(b) / 256 == FromLe(b[1..]);
    }
  }

  function Uint16At(b: Bytes): Uint16
    requires |b| == 2
  {
    assert Pow256(2) == 0x1_0000;
    FromLe(b)
  }

  function Uint32At(b: Bytes): Uint32
    requires |b| == 4
  {
    assert Pow256(4) == 0x1_0000_0000;
    FromLe(b)
  }

  lemma Uint32RoundTrip(x: Uint32)
    ensures Uint32At(Le(x, 4)) == x
  {
    assert Pow256(4) == 0x1_0000_0000;
    LeRoundTrip(x, 4);
  }

  lemma Uint16RoundTrip(x: Uint16)
    ensures Uint16At(Le(x, 2)) == x
  {
    assert Pow256(2) == 0x1_0000;
    LeRoundTrip(x, 2);
  }

  /** A value stored in a three-byte field keeps its 24 low bits. */
  datatype Uint24 = Uint24(b0: Byte, b1: Byte, b2: Byte) {
    function Get(): (x: nat)
      ensures x < TWO_24
    {
      b0 as int + 0x100 * b1 as int + 0x1_0000 * b2 as int
    }
  }

  function SetUint24(x: Uint32): Uint24 {
    Uint24(x % 256, x / 256 % 256, x / 256 / 256 % 256)
  }

  /** Reading back a three-byte field gives the value modulo 2^24: the value itself exactly when it fits. */
  lemma Uint24RoundTrip(x: Uint32)
    ensures SetUint24(x).Get() == x % TWO_24
    ensures SetUint24(x).Get() == x <==> x < TWO_24
  {
    var y := x / 256;
    var z := y / 256;
    assert x == 256 * y + x % 256 && y == 256 * z + y % 256 && z == 256 * (z / 256) + z % 256;
    RemainderIs(x, z / 256, SetUint24(x).Get());
  }

  lemma RemainderIs(x: nat, q: nat, r: nat)
    requires x == TWO_24 * q + r && r < TWO_24
    ensures x % TWO_24 == r && (r == x <==> x < TWO_24)
  {
  }

  lemma Uint24Injective(x: Uint32, y: Uint32)
    requires x < TWO_24 && y < TWO_24 && SetUint24(x) == SetUint24(y)
    ensures x == y
  {
    Uint24RoundTrip(x);
    Uint24RoundTrip(y);
  }

  /** The blocks one after another. */
  function Flatten(blocks: seq<Bytes>): Bytes {
    if blocks == [] then [] else Flatten(blocks[..|blocks|-1]) + blocks[|blocks|-1]
  }

  /** Block `i` is found behind those before it. */
  lemma {:induction false} BlockAt(blocks: seq<Bytes>, i: nat)
    requires i < |blocks|
    ensures var at := |Flatten(blocks[..i])|;
      && at + |blocks[i]| <= |Flatten(blocks)| && Flatten(blocks)[at..at + |blocks[i]|] == blocks[i]
      && |Flatten(blocks[..i + 1])| == at + |blocks[i]|
    decreases |blocks|
  {
    var n := |blocks| - 1;
    assert blocks[..i + 1][..i] == blocks[..i];
    if i < n {
      BlockAt(blocks[..n], i);
      assert blocks[..n][..i] == blocks[..i];
    }
  }

  lemma FlattenAppend(a: seq<Bytes>, b: Bytes)
    ensures Flatten(a + [b]) == Flatten(a) + b
  {
  }

  lemma {:induction false} FlattenConcat(a: seq<Bytes>, b: seq<Bytes>)
    ensures Flatten(a + b) == Flatten(a) + Flatten(b)
    decreases |b|
  {
    if b == [] {
      assert a + b == a;
    } else {
      hide Flatten;
      var n := |b| - 1;
      var last := b[n];
      assert b == b[..n] + [last];
      FlattenConcat(a, b[..n]);
      FlattenAppend(a + b[..n], last);
      FlattenAppend(b[..n], last);
      assert a + (b[..n] + [last]) == (a + b[..n]) + [last];
    }
  }

  lemma FlattenOne(b: Bytes)
    ensures Flatten([b]) == b
  {
  }

  /** Any byte prefix of some blocks is the first `j` blocks and a strict prefix of the next. */
  lemma {:induction false} PrefixOfBlocks(blocks: seq<Bytes>, p: Bytes) returns (j: nat, t: Bytes)
    requires p <= Flatten(blocks)
    ensures j <= |blocks| && p == Flatten(blocks[..j]) + t
    ensures j == |blocks| ==> t == []
    ensures j < |blocks| ==> t <= blocks[j] && |t| < |blocks[j]|
    decreases |blocks|
  {
    if blocks == [] {
      j, t := 0, [];
    } else {
      var n := |blocks| - 1;
      var before := Flatten(blocks[..n]);
      if |p| < |before| {
        assert p <= before;
        j, t := PrefixOfBlocks(blocks[..n], p);
        assert blocks[..n][..j] == blocks[..j];
      } else if |p| == |Flatten(blocks)| {
        j, t := n + 1, [];
        assert blocks[..j] == blocks;
      } else {
        j, t := n, p[|before|..];
        assert p == before + t;
      }
    }
  }

  /** Consecutive reads: the fields of the given widths at the head of `f`, and what follows them. */
  datatype Reading = Short | Fields(fields: seq<Bytes>, rest: Bytes)

  function Read(f: Bytes, widths: seq<nat>): (r: Reading)
    ensures r.Fields? ==> |r.fields| == |widths| && |r.rest| <= |f|
    ensures r.Fields? ==> forall i :: 0 <= i < |widths| ==> |r.fields[i]| == widths[i]
  {
    if widths == [] then Fields([], f)
    else if |f| < widths[0] then Short
    else
      var next := Read(f[widths[0]..], widths[1..]);
      if next.Short? then Short else Fields([f[..widths[0]]] + next.fields, next.rest)
  }

  function Sum(widths: seq<nat>): nat {
    if widths == [] then 0 else widths[0] + Sum(widths[1..])
  }

  function Widths(fields: seq<Bytes>): (w: seq<nat>)
    ensures |w| == |fields|
    ensures forall i :: 0 <= i < |fields| ==> w[i] == |fields[i]|
  {
    seq(|fields|, i requires 0 <= i < |fields| => |fields[i]|)
  }

  /** Reads fail exactly when the file ends before the last field does. */
  lemma {:induction false} ReadShort(f: Bytes, widths: seq<nat>)
    ensures Read(f, widths).Short? <==> |f| < Sum(widths)
    decreases |widths|
  {
    if widths != [] && widths[0] <= |f| {
      ReadShort(f[widths[0]..], widths[1..]);
    }
  }

  lemma {:induction false} ReadRest(f: Bytes, widths: seq<nat>)
    ensures Read(f, widths).Fields? ==> |Read(f, widths).rest| == |f| - Sum(widths)
    decreases |widths|
  {
    if widths != [] && widths[0] <= |f| {
      ReadRest(f[widths[0]..], widths[1..]);
    }
  }

  /** Fields written one after another are read back whatever follows them. */
  lemma {:induction false} ReadRoundTrip(fields: seq<Bytes>, rest: Bytes)
    ensures Read(Flatten(fields) + rest, Widths(fields)) == Fields(fields, rest)
    decreases |fields|
  {
    if fields == [] {
      assert Flatten(fields) + rest == rest;
    } else {
      assert fields == [fields[0]] + fields[1..];
      FlattenConcat([fields[0]], fields[1..]);
      FlattenOne(fields[0]);
      var f := Flatten(fields) + rest;
      assert f == fields[0] + (Flatten(fields[1..]) + rest);
      assert f[|fields[0]|..] == Flatten(fields[1..]) + rest;
      assert Widths(fields)[1..] == Widths(fields[1..]);
      ReadRoundTrip(fields[1..], rest);
    }
  }

  lemma ReadStep(f: Bytes, widths: seq<nat>)
    requires widths != [] && Read(f, widths).Fields?
    ensures widths[0] <= |f|
    ensures var r, next := Read(f, widths), Read(f[widths[0]..], widths[1..]);
      next.Fields? && r.fields == [f[..widths[0]]] + next.fields && r.rest == next.rest
  {
  }

  lemma Glue(f: Bytes, n: nat, middle: Bytes, rest: Bytes)
    requires n <= |f| && f[n..] == middle + rest
    ensures f == (f[..n] + middle) + rest
  {
  }

  /** What was read is what the file holds. */
  lemma {:induction false} ReadExact(f: Bytes, widths: seq<nat>)
    ensures Read(f, widths).Fields? ==> f == Flatten(Read(f, widths).fields) + Read(f, widths).rest
    decreases |widths|
  {
    if widths == [] {
      FlattenNothing();
      assert f == [] + f;
    } else if Read(f, widths).Fields? {
      hide Flatten, Read;
      ReadStep(f, widths);
      var n := widths[0];
      var next := Read(f[n..], widths[1..]);
      ReadExact(f[n..], widths[1..]);
      FlattenConcat([f[..n]], next.fields);
      FlattenOne(f[..n]);
      Glue(f, n, Flatten(next.fields), next.rest);
    }
  }

  lemma FlattenNothing()
    ensures Flatten([]) == []
  {
  }

  lemma {:induction false} FlattenSize(fields: seq<Bytes>)
    ensures |Flatten(fields)| == Sum(Widths(fields))
    decreases |fields|
  {
    if fields != [] {
      assert fields == [fields[0]] + fields[1..];
      FlattenConcat([fields[0]], fields[1..]);
      FlattenOne(fields[0]);
      assert Widths(fields)[1..] == Widths(fields[1..]);
      FlattenSize(fields[1..]);
    }
  }
}
