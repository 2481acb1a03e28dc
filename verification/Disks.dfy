/** The files of a store, what a power cut can leave of them, and the compaction journal. */
module Disks {
  import opened Bytes
  import opened Logs
  import opened Records

  datatype FileName = Seg(id: nat) | IndexFile | Journal | CompactTmp

  type Files = map<FileName, Bytes>

  /** File contents as readers see them, and how many leading bytes of each have been flushed. */
  datatype Disk = Disk(files: Files, synced: map<FileName, nat>) {

    function Synced(name: FileName): nat {
      if name in synced then synced[name] else 0
    }

    /** Open for writing: create or truncate. */
    function Truncate(name: FileName): Disk {
      Disk(files[name := []], synced[name := 0])
    }

    /** Open for appending: create when missing. */
    function Touch(name: FileName): Disk {
      if name in files then this else Truncate(name)
    }

    function Append(name: FileName, data: Bytes): Disk
      requires name in files
    {
      Disk(files[name := files[name] + data], synced)
    }

    function Flush(name: FileName): Disk
      requires name in files
    {
      Disk(files, synced[name := |files[name]|])
    }

    /** Replace a small file in one crash-atomic step. */
    function Overwrite(name: FileName, data: Bytes): Disk {
      Disk(files[name := data], synced[name := |data|])
    }

    function Remove(name: FileName): Disk {
      Disk(files - {name}, synced - {name})
    }

    /** Rename in one crash-atomic step, replacing the target. */
    function Rename(source: FileName, target: FileName): Disk
      requires source in files
    {
      Disk((files - {source})[target := files[source]], (synced - {source})[target := Synced(source)])
    }

    /** The leading bytes of `name` that a power cut cannot take. */
    function Secured(name: FileName): nat
      requires name in files
    {
      if Synced(name) <= |files[name]| then Synced(name) else |files[name]|
    }

    /** Everything in `name` is flushed. */
    predicate Durable(name: FileName) {
      name in files ==> Synced(name) == |files[name]|
    }
  }

  /** Everything but compact.tmp is flushed. */
  ghost predicate Settled(d: Disk) {
    forall name {:trigger name in d.files} :: name in d.files && name != CompactTmp ==> d.Durable(name)
  }

  /** Everything is flushed. */
  ghost predicate Steady(d: Disk) {
    Settled(d) && d.Durable(CompactTmp)
  }

  /** A power cut leaves a disk with everything flushed as it is. */
  lemma SteadyImage(d: Disk, image: Files)
    requires Steady(d) && CrashImage(d, image)
    ensures image == d.files
  {
    forall name | name in d.files
      ensures image[name] == d.files[name]
    {
      assert d.Durable(name);
    }
  }

  /** The same files with the same contents, but for the files of `except`. */
  ghost predicate SameExcept(f: Files, g: Files, except: set<FileName>) {
    forall name {:trigger name in f} {:trigger name in g} :: name !in except ==>
      (name in f <==> name in g) && (name in f ==> f[name] == g[name])
  }

  /** What a power cut can leave: of each file, any prefix that keeps the flushed bytes. */
  ghost predicate CrashImage(d: Disk, image: Files) {
    && image.Keys == d.files.Keys
    && forall name :: name in d.files ==> image[name] <= d.files[name] && d.Secured(name) <= |image[name]|
  }

  lemma DurableSurvives(d: Disk, image: Files, name: FileName)
    requires CrashImage(d, image) && d.Durable(name) && name in d.files
    ensures image[name] == d.files[name]
  {
  }

  const JOURNAL_MAGIC: Uint32 := 0x4B564A4E
  const JOURNAL_COMPACTING: Uint32 := 1
  const JOURNAL_COMMIT: Uint32 := 2

  datatype JournalRecord = JournalRecord(magic: Uint32, state: Uint32, nextSeg: Uint32, tmpValidSize: Uint32)

  function EncodeJournal(j: JournalRecord): Bytes {
    Flatten([Le(j.magic, 4), Le(j.state, 4), Le(j.nextSeg, 4), Le(j.tmpValidSize, 4)])
  }

  /** The journal on disk: four words, the first of which spells NJVK. */
  lemma JournalLayout(state: Uint32, next: Uint32, size: Uint32)
    ensures var b := EncodeJournal(JournalRecord(JOURNAL_MAGIC, state, next, size));
      && |b| == 16 && b[..4] == [0x4E, 0x4A, 0x56, 0x4B]
      && b[4..8] == Le(state, 4) && b[8..12] == Le(next, 4) && b[12..16] == Le(size, 4)
  {
    hide Le, Flatten;
    JournalMagic();
    var fs := [Le(JOURNAL_MAGIC, 4), Le(state, 4), Le(next, 4), Le(size, 4)];
    FourWords(fs);
    assert fs[0] == Le(JOURNAL_MAGIC, 4) && fs[1] == Le(state, 4) && fs[2] == Le(next, 4) && fs[3] == Le(size, 4);
  }

  lemma JournalMagic()
    ensures Le(JOURNAL_MAGIC, 4) == [0x4E, 0x4A, 0x56, 0x4B]
  {
    LeBytes(JOURNAL_MAGIC);
  }

  lemma FourWords(fs: seq<Bytes>)
    requires |fs| == 4 && forall i :: 0 <= i < 4 ==> |fs[i]| == 4
    ensures var b := Flatten(fs);
      |b| == 16 && b[..4] == fs[0] && b[4..8] == fs[1] && b[8..12] == fs[2] && b[12..16] == fs[3]
  {
    hide Flatten;
    FlattenNothing();
    assert fs[..0] == [] && fs[..4] == fs;
    BlockAt(fs, 0);
    BlockAt(fs, 1);
    BlockAt(fs, 2);
    BlockAt(fs, 3);
  }

  /** The journal read at boot; a file shorter than the structure is no journal. */
  function DecodeJournal(b: Bytes): Option<JournalRecord> {
    var r := Read(b, [4, 4, 4, 4]);
    if r.Short? then None
    else Some(JournalRecord(Uint32At(r.fields[0]), Uint32At(r.fields[1]), Uint32At(r.fields[2]), Uint32At(r.fields[3])))
  }

  lemma JournalRoundTrip(j: JournalRecord)
    ensures DecodeJournal(EncodeJournal(j)) == Some(j)
  {
    var fs := [Le(j.magic, 4), Le(j.state, 4), Le(j.nextSeg, 4), Le(j.tmpValidSize, 4)];
    assert Widths(fs) == [4, 4, 4, 4];
    ReadRoundTrip(fs, []);
    assert Flatten(fs) + [] == Flatten(fs);
    Uint32RoundTrip(j.magic);
    Uint32RoundTrip(j.state);
    Uint32RoundTrip(j.nextSeg);
    Uint32RoundTrip(j.tmpValidSize);
  }

  /** The journal a boot acts on: a missing, short or foreign file counts as none. */
  function JournalOf(files: Files): Option<JournalRecord> {
    if Journal !in files then None
    else
      var j := DecodeJournal(files[Journal]);
      if j.Some? && j.value.magic == JOURNAL_MAGIC then j else None
  }

  ghost predicate JournalSays(files: Files, state: Uint32, nextSeg: nat) {
    var j := JournalOf(files);
    j.Some? && j.value.state == state && j.value.nextSeg == nextSeg
  }

  function Segments(n: nat): set<FileName> {
    set i | 0 <= i < n :: Seg(i)
  }

  /** What a scan finds in segment `seg`. */
  function SegRecs(files: Files, seg: nat): seq<Record> {
    if Seg(seg) in files then Scan(files[Seg(seg)]) else []
  }

  function SegsOf(files: Files, n: nat): (s: Segs)
    ensures |s| == n
  {
    seq(n, i requires 0 <= i < n => SegRecs(files, i))
  }
}
