/** The checksum a record header carries. */
module Checksum {
  import opened Bytes
  import opened Records
  import opened Crc

  function ToBv8(b: Bytes): (s: seq<bv8>)
    ensures |s| == |b|
  {
    seq(|b|, i requires 0 <= i < |b| => b[i] as bv8)
  }

  /** The header, the key and the value are fed one after another; the `crc` field itself is not covered. */
  function RecordCrc(r: Record): Uint32 {
    Crc32(Crc32(Crc32(0, ToBv8(Flatten(PrefixFields(r)))), ToBv8(r.key)), ToBv8(r.value)) as int
  }

  function Sealed(r: Record): Record {
    r.(crc := RecordCrc(r))
  }

  lemma ToBv8Concat(a: Bytes, b: Bytes)
    ensures ToBv8(a + b) == ToBv8(a) + ToBv8(b)
  {
  }

  /** Writing a CRC lowest byte first writes the bytes of the register. */
  lemma {:induction false} LeOfRegister(w: bv32, n: nat)
    ensures ToBv8(Le(Number(w), n)) == LowBytes(w, n)
    decreases n
  {
    hide Low, High, Number;
    if n > 0 {
      LowByte(w);
      LeOfRegister(High(w), n - 1);
      SameByte(Low(w), Number(w) % 256);
      var b := Le(Number(w), n);
      assert b[1..] == Le(Number(High(w)), n - 1);
      assert ToBv8(b)[1..] == ToBv8(b[1..]);
    }
  }

  lemma SameByte(a: bv8, b: Byte)
    requires a as int == b
    ensures b as bv8 == a
  {
  }

  /** Whoever checks a message followed by its CRC as one message finds the same number, whatever the message. */
  lemma ResidueOfBytes(m: seq<bv8>)
    ensures Crc32(0, m + ToBv8(Le(Crc32(0, m) as int, 4))) == 0x2144_DF1C
  {
    hide Crc32, LowBytes;
    LeOfRegister(Crc32(0, m), 4);
    Residue(m);
  }

  /** The record `put` writes. */
  function PutRecord(key: Key, data: Value, ttl: Uint32, ts: Uint32, priority: Byte): Record {
    Sealed(Record(0, key, data, ts, ttl, priority, 0))
  }

  /** The tombstone `remove` writes; it leaves the ttl and the priority field uninitialised. */
  function Tombstone(key: Key, junkTtl: Uint32, junkPriority: Byte): Record {
    Sealed(Record(FLAG_DELETE, key, [], 0, junkTtl, junkPriority, 0))
  }

  /** The field is the CRC-32 of the 17 header bytes before it, the key and the value, as one message. */
  lemma CrcOfWhole(r: Record)
    ensures |Flatten(PrefixFields(r))| == 17
    ensures RecordCrc(r) == Crc32(0, ToBv8(Flatten(PrefixFields(r)) + r.key + r.value)) as int
  {
    hide Crc32, Flatten, ToBv8, PrefixFields;
    HeaderWidths(r);
    var h := Flatten(PrefixFields(r));
    ToBv8Concat(h, r.key);
    ToBv8Concat(h + r.key, r.value);
    Chaining(0, ToBv8(h), ToBv8(r.key));
    Chaining(0, ToBv8(h) + ToBv8(r.key), ToBv8(r.value));
  }

  /** The record as written: the covered bytes with the checksum between header and key. */
  lemma SealedEncoding(r: Record)
    ensures Encode(Sealed(r)) == Flatten(PrefixFields(r)) + Le(RecordCrc(r), 4) + r.key + r.value + Le(MAGIC_COMMIT, 4)
  {
    hide RecordCrc, Flatten, Header, Encode;
    SealedHeader(r);
    EncodedParts(Sealed(r));
  }

  lemma SealedHeader(r: Record)
    ensures Header(Sealed(r)) == Flatten(PrefixFields(r)) + Le(RecordCrc(r), 4)
  {
  }

  /** Bytes 17 to 20 of the record on disk are the CRC-32 of the 17 bytes before them and of what lies between the
      header and the commit marker. */
  ghost predicate ChecksOut(r: Record) {
    var b := Encode(r);
    && HEADER_SIZE + COMMIT_SIZE <= |b|
    && b[17..21] == Le(Crc32(0, ToBv8(b[..17] + b[21..|b| - COMMIT_SIZE])) as int, 4)
  }

  /** A sealed record does. */
  lemma SealedChecksOut(r: Record)
    ensures ChecksOut(Sealed(r))
  {
    hide RecordCrc, Flatten, Header, Encode, Crc32, PrefixFields, Le, ToBv8;
    CrcOfWhole(r);
    SealedEncoding(r);
    var h := Flatten(PrefixFields(r));
    FivePieces(h, Le(RecordCrc(r), 4), r.key, r.value, Le(MAGIC_COMMIT, 4));
    assert h + (r.key + r.value) == h + r.key + r.value;
  }

  lemma FivePieces(h: Bytes, c: Bytes, k: Bytes, v: Bytes, m: Bytes)
    requires |h| == 17 && |c| == 4 && |m| == 4
    ensures var b := h + c + k + v + m;
      b[..17] == h && b[17..21] == c && b[21..|b| - 4] == k + v
  {
  }

  lemma WrittenRecords(key: Key, data: Value, ttl: Uint32, ts: Uint32, priority: Byte)
    requires 1 <= |key|
    ensures var r := PutRecord(key, data, ttl, ts, priority);
      && r.flags == 0 && r.key == key && r.value == data && r.ts == ts && r.ttl == ttl && r.priority == priority
      && Storable(r) && !r.IsDelete() && r.Size() == HEADER_SIZE + |key| + |data| + COMMIT_SIZE && ChecksOut(r)
    ensures var t := Tombstone(key, ttl, priority);
      && t.flags == 1 && t.key == key && t.value == [] && t.ts == 0 && t.ttl == ttl && t.priority == priority
      && Storable(t) && t.IsDelete() && t.Size() == HEADER_SIZE + |key| + COMMIT_SIZE
      && ChecksOut(t)
  {
    hide RecordCrc, ChecksOut;
    SealedChecksOut(Record(0, key, data, ts, ttl, priority, 0));
    SealedChecksOut(Record(FLAG_DELETE, key, [], 0, ttl, priority, 0));
  }
}
