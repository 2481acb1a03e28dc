/** The record format of a segment file, and the scan that reads a segment back. */
module Records {
  import opened Bytes

  const MAGIC_RECORD: Uint32 := 0xC0DEC0DE
  const MAGIC_COMMIT: Uint32 := 0xFACEB00C
  const FLAG_DELETE: Byte := 1
  const MAX_KEY_LEN: nat := 64
  const MAX_VALUE_LEN: nat := 1024
  const HEADER_SIZE: nat := 21
  const COMMIT_SIZE: nat := 4

  type Key = k: Bytes | |k| <= MAX_KEY_LEN
  type Value = v: Bytes | |v| <= MAX_VALUE_LEN

  datatype Record = Record(flags: Byte, key: Key, value: Value,
                           ts: Uint32, ttl: Uint32, priority: Byte, crc: Uint32) {
    /** Bit 0 of the flags marks a tombstone. */
    predicate IsDelete() {
      flags % 2 == FLAG_DELETE
    }

    function Size(): nat {
      HEADER_SIZE + |key| + |value| + COMMIT_SIZE
    }
  }

  datatype Option<+T> = None | Some(value: T)

  /** The header fields the CRC covers: everything before the `crc` field. */
  function PrefixFields(r: Record): seq<Bytes> {
    [Le(MAGIC_RECORD, 4), [r.flags], [|r.key|], Le(|r.value|, 2), Le(r.ts, 4), Le(r.ttl, 4), [r.priority]]
  }

  const HEADER_WIDTHS: seq<nat> := [4, 1, 1, 2, 4, 4, 1, 4]

  function Header(r: Record): (b: Bytes) {
    Flatten(PrefixFields(r) + [Le(r.crc, 4)])
  }

  function BodyFields(r: Record): seq<Bytes> {
    [r.key, r.value, Le(MAGIC_COMMIT, 4)]
  }

  /** A record on disk: header, key, value, commit marker. */
  function Encode(r: Record): Bytes {
    Header(r) + Flatten(BodyFields(r))
  }

  function Blocks(rs: seq<Record>): (bs: seq<Bytes>)
    ensures |bs| == |rs|
  {
    seq(|rs|, i requires 0 <= i < |rs| => Encode(rs[i]))
  }

  function EncodeAll(rs: seq<Record>): Bytes {
    Flatten(Blocks(rs))
  }

  /** The record a scan accepts at the head of `f`, if any; every other case ends the scan. */
  function Parse(f: Bytes): (r: Option<Record>) {
    var h := Read(f, HEADER_WIDTHS);
    if h.Short? then None
    else
      var keyLen, length := h.fields[2][0], Uint16At(h.fields[3]);
      if Uint32At(h.fields[0]) != MAGIC_RECORD || keyLen == 0 || keyLen > MAX_KEY_LEN || length > MAX_VALUE_LEN
      then None
      else
        var b := Read(h.rest, [keyLen, length, 4]);
        if b.Short? || Uint32At(b.fields[2]) != MAGIC_COMMIT then None
        else Some(Record(h.fields[1][0], b.fields[0], b.fields[1], Uint32At(h.fields[4]), Uint32At(h.fields[5]),
                         h.fields[6][0], Uint32At(h.fields[7])))
  }

  /** The records of a segment file, up to the first place where the scan stops. */
  function Scan(f: Bytes): seq<Record>
    decreases |f|
  {
    var p := Parse(f);
    ParsedSize(f);
    if p.None? then [] else [p.value] + Scan(f[p.value.Size()..])
  }

  /** A record `put` and `remove` write under the standing assumption that keys are not empty. */
  predicate Storable(r: Record) {
    1 <= |r.key|
  }

  ghost predicate AllStorable(rs: seq<Record>) {
    forall i :: 0 <= i < |rs| ==> Storable(rs[i])
  }

  lemma HeaderWidths(r: Record)
    ensures Widths(PrefixFields(r) + [Le(r.crc, 4)]) == HEADER_WIDTHS
    ensures |Header(r)| == HEADER_SIZE
    ensures |Flatten(PrefixFields(r))| == HEADER_SIZE - 4
  {
    var fs := PrefixFields(r) + [Le(r.crc, 4)];
    assert Widths(fs) == HEADER_WIDTHS;
    FlattenSize(fs);
    SumOfHeader();
    assert fs[..7] == PrefixFields(r);
  }

  lemma SumOfHeader()
    ensures Sum(HEADER_WIDTHS) == HEADER_SIZE
  {
  }

  lemma SumOfBody(k: nat, v: nat)
    ensures Sum([k, v, 4]) == k + v + 4
  {
    assert [k, v, 4][1..] == [v, 4];
    assert [v, 4][1..] == [4];
    assert Sum([4]) == 4 + Sum([4][1..]);
  }

  lemma EncodedSize(r: Record)
    ensures |Encode(r)| == r.Size()
  {
    HeaderWidths(r);
    assert Widths(BodyFields(r)) == [|r.key|, |r.value|, 4];
    FlattenSize(BodyFields(r));
    SumOfBody(|r.key|, |r.value|);
  }

  /** A complete header is read back whatever follows it. */
  lemma HeaderRoundTrip(r: Record, rest: Bytes)
    ensures Read(Header(r) + rest, HEADER_WIDTHS) == Fields(PrefixFields(r) + [Le(r.crc, 4)], rest)
  {
    HeaderWidths(r);
    ReadRoundTrip(PrefixFields(r) + [Le(r.crc, 4)], rest);
  }

  /** A complete record is read back whatever follows it. */
  lemma ParseEncoded(r: Record, rest: Bytes)
    requires Storable(r)
    ensures Parse(Encode(r) + rest) == Some(r)
  {
    hide Read, Header, Le;
    var body := Flatten(BodyFields(r)) + rest;
    assert Encode(r) + rest == Header(r) + body;
    HeaderRoundTrip(r, body);
    assert Widths(BodyFields(r)) == [|r.key|, |r.value|, 4];
    ReadRoundTrip(BodyFields(r), rest);
    Uint32RoundTrip(MAGIC_RECORD);
    Uint32RoundTrip(MAGIC_COMMIT);
    Uint16RoundTrip(|r.value|);
    Uint32RoundTrip(r.ts);
    Uint32RoundTrip(r.ttl);
    Uint32RoundTrip(r.crc);
  }

  /** A torn record, cut anywhere before its last byte, is never accepted. */
  lemma ParseTorn(r: Record, t: Bytes)
    requires t <= Encode(r) && |t| < r.Size()
    ensures Parse(t) == None
  {
    hide Le, Read;
    HeaderWidths(r);
    SumOfHeader();
    ReadShort(t, HEADER_WIDTHS);
    if HEADER_SIZE <= |t| {
      var rest := t[HEADER_SIZE..];
      assert t == Header(r) + rest;
      HeaderRoundTrip(r, rest);
      Uint16RoundTrip(|r.value|);
      ReadShort(rest, [|r.key|, |r.value|, 4]);
      SumOfBody(|r.key|, |r.value|);
    }
  }

  /** A record with an empty key is written by `put` but stops every scan that reaches it. */
  lemma EmptyKeyStopsScan(r: Record, rest: Bytes)
    requires !Storable(r)
    ensures Scan(Encode(r) + rest) == []
  {
    hide Le, Read;
    var body := Flatten(BodyFields(r)) + rest;
    assert Encode(r) + rest == Header(r) + body;
    HeaderRoundTrip(r, body);
  }

  lemma ParsedSize(f: Bytes)
    ensures Parse(f).Some? ==> Parse(f).value.Size() <= |f| && Storable(Parse(f).value)
  {
    var p := Parse(f);
    if p.Some? {
      SumOfHeader();
      ReadShort(f, HEADER_WIDTHS);
      ReadRest(f, HEADER_WIDTHS);
      var rest := Read(f, HEADER_WIDTHS).rest;
      ReadShort(rest, [|p.value.key|, |p.value.value|, 4]);
      SumOfBody(|p.value.key|, |p.value.value|);
    }
  }

  /** The fields a header is read as are those of the record it is read as. */
  lemma HeaderExact(f: Bytes)
    requires Parse(f).Some?
    ensures var r, h := Parse(f).value, Read(f, HEADER_WIDTHS);
      h.Fields? && h.fields == PrefixFields(r) + [Le(r.crc, 4)]
  {
    hide Le, FromLe;
    var r, h := Parse(f).value, Read(f, HEADER_WIDTHS);
    FromLeRoundTrip(h.fields[0]);
    FromLeRoundTrip(h.fields[3]);
    FromLeRoundTrip(h.fields[4]);
    FromLeRoundTrip(h.fields[5]);
    FromLeRoundTrip(h.fields[7]);
    assert h.fields[1] == [r.flags] && h.fields[2] == [|r.key|] && h.fields[6] == [r.priority];
    assert PrefixFields(r) + [Le(r.crc, 4)]
        == [Le(MAGIC_RECORD, 4), [r.flags], [|r.key|], Le(|r.value|, 2), Le(r.ts, 4), Le(r.ttl, 4), [r.priority],
           Le(r.crc, 4)];
  }

  lemma BodyExact(f: Bytes)
    requires Parse(f).Some?
    ensures var r, rest := Parse(f).value, Read(f, HEADER_WIDTHS).rest;
      var b := Read(rest, [|r.key|, |r.value|, 4]);
      b.Fields? && b.fields == BodyFields(r)
  {
    var r, rest := Parse(f).value, Read(f, HEADER_WIDTHS).rest;
    var b := Read(rest, [|r.key|, |r.value|, 4]);
    FromLeRoundTrip(b.fields[2]);
  }

  /** A scan accepts nothing but encoded records: what it reads as a record is, byte for byte, that record. */
  lemma ParseExact(f: Bytes)
    requires Parse(f).Some?
    ensures var r := Parse(f).value;
      r.Size() <= |f| && f[..r.Size()] == Encode(r)
  {
    hide Parse, Read, PrefixFields, BodyFields;
    var r, h := Parse(f).value, Read(f, HEADER_WIDTHS);
    HeaderExact(f);
    BodyExact(f);
    var b := Read(h.rest, [|r.key|, |r.value|, 4]);
    ReadExact(f, HEADER_WIDTHS);
    ReadExact(h.rest, [|r.key|, |r.value|, 4]);
    assert f == Encode(r) + b.rest;
    EncodedSize(r);
  }

  /** A file starts with the encoding of what is scanned from it. */
  lemma {:induction false} ScanIsPrefix(f: Bytes)
    ensures EncodeAll(Scan(f)) <= f && AllStorable(Scan(f))
    decreases |f|
  {
    hide Parse, Encode;
    var p := Parse(f);
    ParsedSize(f);
    if p.Some? {
      var rest := f[p.value.Size()..];
      ParseExact(f);
      ScanIsPrefix(rest);
      EncodeAllCons(p.value, Scan(rest));
      assert f == Encode(p.value) + rest;
    }
  }

  lemma EncodeAllConcat(a: seq<Record>, b: seq<Record>)
    ensures EncodeAll(a + b) == EncodeAll(a) + EncodeAll(b)
  {
    assert Blocks(a + b) == Blocks(a) + Blocks(b);
    FlattenConcat(Blocks(a), Blocks(b));
  }

  lemma EncodeAllOne(r: Record)
    ensures EncodeAll([r]) == Encode(r)
  {
    assert Blocks([r]) == [Encode(r)];
    FlattenOne(Encode(r));
  }

  lemma EncodeAllCons(r: Record, rs: seq<Record>)
    ensures EncodeAll([r] + rs) == Encode(r) + EncodeAll(rs)
  {
    EncodeAllConcat([r], rs);
    EncodeAllOne(r);
  }

  /** `t` is what a cut write leaves: nothing, or a strict prefix of one more record. */
  ghost predicate Torn(t: Bytes) {
    t == [] || exists r: Record :: t <= Encode(r) && |t| < r.Size()
  }

  lemma ScanCons(r: Record, rest: Bytes)
    requires Storable(r)
    ensures Scan(Encode(r) + rest) == [r] + Scan(rest)
  {
    ParseEncoded(r, rest);
    EncodedSize(r);
    assert (Encode(r) + rest)[r.Size()..] == rest;
  }

  lemma ScanTorn(t: Bytes)
    requires Torn(t)
    ensures Scan(t) == []
  {
    if t != [] {
      var r: Record :| t <= Encode(r) && |t| < r.Size();
      ParseTorn(r, t);
    }
  }

  /** A scan gets past whole records and goes on behind them. */
  lemma {:induction false} ScanAfter(rs: seq<Record>, rest: Bytes)
    requires AllStorable(rs)
    ensures Scan(EncodeAll(rs) + rest) == rs + Scan(rest)
    decreases |rs|
  {
    hide Encode, Scan;
    if rs == [] {
      assert EncodeAll(rs) + rest == rest;
    } else {
      assert rs == [rs[0]] + rs[1..];
      EncodeAllCons(rs[0], rs[1..]);
      assert EncodeAll(rs) + rest == Encode(rs[0]) + (EncodeAll(rs[1..]) + rest);
      ScanCons(rs[0], EncodeAll(rs[1..]) + rest);
      ScanAfter(rs[1..], rest);
      assert [rs[0]] + (rs[1..] + Scan(rest)) == rs + Scan(rest);
    }
  }

  /** Scanning any list of records followed by a torn tail gives back exactly that list. */
  lemma ScanRoundTrip(rs: seq<Record>, t: Bytes)
    requires AllStorable(rs) && Torn(t)
    ensures Scan(EncodeAll(rs) + t) == rs
  {
    ScanAfter(rs, t);
    ScanTorn(t);
  }

  /** The records before the first one with an empty key. */
  function BeforeEmptyKey(rs: seq<Record>): (p: seq<Record>)
    ensures p <= rs && AllStorable(p)
    ensures p == rs || (|p| < |rs| && !Storable(rs[|p|]))
  {
    if rs == [] || !Storable(rs[0]) then [] else [rs[0]] + BeforeEmptyKey(rs[1..])
  }

  /** Scanning any list of records whatever, followed by a torn tail, gives the records before the first empty key:
      all of them exactly when no key is empty. */
  lemma ScanExact(rs: seq<Record>, t: Bytes)
    requires Torn(t)
    ensures Scan(EncodeAll(rs) + t) == BeforeEmptyKey(rs)
    ensures Scan(EncodeAll(rs) + t) == rs <==> AllStorable(rs)
  {
    hide Scan, Encode, EncodeAll, BeforeEmptyKey;
    var p := BeforeEmptyKey(rs);
    if p == rs {
      ScanRoundTrip(rs, t);
    } else {
      var n := |p|;
      assert rs == p + ([rs[n]] + rs[n + 1..]);
      EncodeAllConcat(p, [rs[n]] + rs[n + 1..]);
      EncodeAllCons(rs[n], rs[n + 1..]);
      var rest := EncodeAll(rs[n + 1..]) + t;
      assert EncodeAll(rs) + t == EncodeAll(p) + (Encode(rs[n]) + rest);
      EmptyKeyStopsScan(rs[n], rest);
      ScanAfter(p, Encode(rs[n]) + rest);
    }
  }

  /** Any byte prefix of a list of records is a shorter list followed by a torn tail. */
  lemma PrefixOfRecords(rs: seq<Record>, p: Bytes) returns (j: nat, t: Bytes)
    requires p <= EncodeAll(rs)
    ensures j <= |rs| && Torn(t) && p == EncodeAll(rs[..j]) + t
    ensures j == |rs| ==> t == []
    ensures j < |rs| ==> |t| < rs[j].Size()
  {
    j, t := PrefixOfBlocks(Blocks(rs), p);
    assert Blocks(rs)[..j] == Blocks(rs[..j]);
    if j < |rs| {
      assert Blocks(rs)[j] == Encode(rs[j]);
      EncodedSize(rs[j]);
    }
  }

  lemma EncodeAllStep(rs: seq<Record>, i: nat)
    requires i < |rs|
    ensures |EncodeAll(rs[..i + 1])| == |EncodeAll(rs[..i])| + rs[i].Size()
  {
    assert rs[..i + 1] == rs[..i] + [rs[i]];
    EncodeAllConcat(rs[..i], [rs[i]]);
    EncodeAllOne(rs[i]);
    EncodedSize(rs[i]);
  }

  /** More records are strictly more bytes. */
  lemma {:induction false} EncodeAllGrows(rs: seq<Record>, i: nat, j: nat)
    requires i < j <= |rs|
    ensures |EncodeAll(rs[..i])| + rs[i].Size() <= |EncodeAll(rs[..j])|
    decreases j - i
  {
    hide EncodeAll;
    EncodeAllStep(rs, j - 1);
    if i < j - 1 {
      EncodeAllGrows(rs, i, j - 1);
    }
  }

  /** A prefix long enough for the first `k` records keeps all of them. */
  lemma PrefixKeeps(rs: seq<Record>, k: nat, p: Bytes) returns (j: nat, t: Bytes)
    requires k <= |rs| && p <= EncodeAll(rs) && |EncodeAll(rs[..k])| <= |p|
    ensures k <= j <= |rs| && Torn(t) && p == EncodeAll(rs[..j]) + t
  {
    j, t := PrefixOfRecords(rs, p);
    if j < k {
      EncodeAllGrows(rs, j, k);
    }
  }

  /** A prefix that keeps at least the first `k` records scans to a list of records that keeps them. */
  lemma ScanOfPrefix(rs: seq<Record>, k: nat, p: Bytes) returns (j: nat)
    requires AllStorable(rs) && k <= |rs|
    requires p <= EncodeAll(rs) && |EncodeAll(rs[..k])| <= |p|
    ensures k <= j <= |rs| && Scan(p) == rs[..j]
  {
    var t: Bytes;
    j, t := PrefixKeeps(rs, k, p);
    ScanRoundTrip(rs[..j], t);
  }

  /** The bytes a list of records takes. */
  function SizeOf(rs: seq<Record>): nat {
    if rs == [] then 0 else SizeOf(rs[..|rs|-1]) + rs[|rs|-1].Size()
  }

  lemma {:induction false} SizeOfEncoding(rs: seq<Record>)
    ensures |EncodeAll(rs)| == SizeOf(rs)
    decreases |rs|
  {
    if rs != [] {
      var n := |rs| - 1;
      SizeOfEncoding(rs[..n]);
      assert rs[..n + 1] == rs;
      EncodeAllStep(rs, n);
    }
  }

  /** Where record `i` starts: after the sizes of the records before it. */
  function Offset(rs: seq<Record>, i: nat): nat
    requires i <= |rs|
  {
    SizeOf(rs[..i])
  }

  lemma {:induction false} OffsetGrows(rs: seq<Record>, i: nat, j: nat)
    requires i < j <= |rs|
    ensures Offset(rs, i) + rs[i].Size() <= Offset(rs, j)
    decreases j - i
  {
    assert rs[..j][..j-1] == rs[..j-1];
    if i < j - 1 {
      OffsetGrows(rs, i, j - 1);
    }
  }

  /** What compaction reads of a record: it does not look at the commit marker. */
  datatype Raw = Raw(header: Bytes, key: Bytes, value: Bytes)

  /** A short or foreign record is skipped. */
  function ReadRaw(f: Bytes): Option<Raw> {
    var h := Read(f, HEADER_WIDTHS);
    if h.Short? then None
    else
      var keyLen, length := h.fields[2][0], Uint16At(h.fields[3]);
      if Uint32At(h.fields[0]) != MAGIC_RECORD || keyLen > MAX_KEY_LEN || length > MAX_VALUE_LEN then None
      else
        var b := Read(h.rest, [keyLen, length]);
        if b.Short? then None else Some(Raw(Flatten(h.fields), b.fields[0], b.fields[1]))
  }

  /** A complete record is read raw as its own header, key and value. */
  lemma ReadRawEncoded(r: Record, rest: Bytes)
    ensures ReadRaw(Encode(r) + rest) == Some(Raw(Header(r), r.key, r.value))
  {
    hide Read, Le;
    var body := Flatten(BodyFields(r)) + rest;
    assert Encode(r) + rest == Header(r) + body;
    HeaderRoundTrip(r, body);
    var fs := [r.key, r.value];
    assert Widths(fs) == [|r.key|, |r.value|];
    assert BodyFields(r)[..2] == fs;
    assert body == Flatten(fs) + (Le(MAGIC_COMMIT, 4) + rest);
    ReadRoundTrip(fs, Le(MAGIC_COMMIT, 4) + rest);
    Uint32RoundTrip(MAGIC_RECORD);
    Uint16RoundTrip(|r.value|);
  }

  /** The four pieces in which a record is written. */
  lemma EncodedParts(r: Record)
    ensures Encode(r) == Header(r) + r.key + r.value + Le(MAGIC_COMMIT, 4)
  {
    FlattenThree(r.key, r.value, Le(MAGIC_COMMIT, 4));
  }

  /** Where each field of a record lies on disk. */
  lemma RecordLayout(r: Record)
    ensures var b, k, v := Encode(r), 21 + |r.key|, 21 + |r.key| + |r.value|;
      && |b| == v + 4 && b[..4] == [0xDE, 0xC0, 0xDE, 0xC0]
      && b[4] == r.flags && b[5] == |r.key| && b[6..8] == Le(|r.value|, 2)
      && b[8..12] == Le(r.ts, 4) && b[12..16] == Le(r.ttl, 4) && b[16] == r.priority && b[17..21] == Le(r.crc, 4)
      && b[21..k] == r.key && b[k..v] == r.value && b[v..] == [0x0C, 0xB0, 0xCE, 0xFA]
  {
    hide Le, Encode;
    EncodedSize(r);
    HeaderLayout(r);
    EncodedParts(r);
    LeBytes(MAGIC_COMMIT);
    var h, b := Header(r), Encode(r);
    assert forall i, j :: 0 <= i <= j <= 21 ==> b[i..j] == h[i..j];
    assert b[4] == b[4..5][0] && b[5] == b[5..6][0] && b[16] == b[16..17][0];
  }

  lemma HeaderLayout(r: Record)
    ensures var h := Header(r);
      && |h| == 21 && h[..4] == [0xDE, 0xC0, 0xDE, 0xC0] && h[4..5] == [r.flags] && h[5..6] == [|r.key|]
      && h[6..8] == Le(|r.value|, 2) && h[8..12] == Le(r.ts, 4) && h[12..16] == Le(r.ttl, 4)
      && h[16..17] == [r.priority] && h[17..21] == Le(r.crc, 4)
  {
    hide Le, Flatten;
    var fs := PrefixFields(r) + [Le(r.crc, 4)];
    HeaderWidths(r);
    LeBytes(MAGIC_RECORD);
    FlattenNothing();
    assert fs[..0] == [];
    BlockAt(fs, 0);
    BlockAt(fs, 1);
    BlockAt(fs, 2);
    BlockAt(fs, 3);
    BlockAt(fs, 4);
    BlockAt(fs, 5);
    BlockAt(fs, 6);
    BlockAt(fs, 7);
  }

  /** Record `j` lies at its offset. */
  lemma RecordAt(rs: seq<Record>, j: nat)
    requires j < |rs|
    ensures Offset(rs, j) <= |EncodeAll(rs)|
    ensures EncodeAll(rs)[Offset(rs, j)..] == Encode(rs[j]) + EncodeAll(rs[j + 1..])
  {
    SizeOfEncoding(rs[..j]);
    assert rs == rs[..j] + ([rs[j]] + rs[j + 1..]);
    EncodeAllConcat(rs[..j], [rs[j]] + rs[j + 1..]);
    EncodeAllCons(rs[j], rs[j + 1..]);
  }

  /** What `get` reads of a record: the value's length and as much of the value as the caller has room for. */
  function Fetch(f: Bytes, capacity: nat): Option<(nat, Bytes)> {
    var h := Read(f, HEADER_WIDTHS);
    if h.Short? then None
    else
      var keyLen, length := h.fields[2][0], Uint16At(h.fields[3]);
      if Uint32At(h.fields[0]) != MAGIC_RECORD || keyLen > MAX_KEY_LEN || length > MAX_VALUE_LEN then None
      else
        var n := if length <= capacity then length else capacity;
        var v := Read(h.rest, [keyLen, n]);
        if v.Short? then None else Some((length as nat, v.fields[1]))
  }

  /** A complete record is fetched as its own value, cut to the caller's room. */
  lemma FetchEncoded(r: Record, rest: Bytes, capacity: nat)
    ensures Fetch(Encode(r) + rest, capacity)
         == Some((|r.value|, r.value[..if |r.value| <= capacity then |r.value| else capacity]))
  {
    hide Le, Flatten, Read;
    var body := Flatten(BodyFields(r)) + rest;
    assert Encode(r) + rest == Header(r) + body;
    HeaderRoundTrip(r, body);
    Uint32RoundTrip(MAGIC_RECORD);
    Uint16RoundTrip(|r.value|);
    var n := if |r.value| <= capacity then |r.value| else capacity;
    FetchBody(r, rest, n);
  }

  lemma FetchBody(r: Record, rest: Bytes, n: nat)
    requires n <= |r.value|
    ensures var v := Read(Flatten(BodyFields(r)) + rest, [|r.key|, n]);
      v.Fields? && v.fields[1] == r.value[..n]
  {
    hide Read, Flatten, Widths, Le;
    var key: Bytes, value: Bytes := r.key, r.value;
    var commit := Le(MAGIC_COMMIT, 4);
    FlattenThree(key, value, commit);
    FlattenTwo(key, value[..n]);
    var fs := [key, value[..n]];
    var tail := value[n..] + commit + rest;
    assert Widths(fs) == [|key|, n];
    assert value == value[..n] + value[n..];
    assert key + value + commit + rest == (key + value[..n]) + tail;
    ReadRoundTrip(fs, tail);
  }

  lemma FlattenTwo(a: Bytes, b: Bytes)
    ensures Flatten([a, b]) == a + b
  {
    assert [a, b][..1] == [a];
    FlattenOne(a);
  }

  lemma FlattenThree(a: Bytes, b: Bytes, c: Bytes)
    ensures Flatten([a, b, c]) == a + b + c
  {
    assert [a, b, c][..2] == [a, b];
    FlattenTwo(a, b);
  }
}
