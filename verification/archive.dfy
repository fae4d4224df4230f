// The CBK1 bottle archive: the stream backup writes, the reader that restores it
// over arbitrary bytes, and cloning a bottle through the two.
module Archive {
  import opened Status
  import opened Words

  // One archived file; the path is relative to the bottle.
  datatype Entry = Entry(path: Bytes, data: Bytes)
  {
    // The length fields are 32-bit casts.
    function Stored(): Bytes {
      LeBytes(|path|, 4) + (path + (LeBytes(|data|, 4) + data))
    }
  }

  const MAX_PATH: nat := 512

  function Magic(): Bytes { [0x43, 0x42, 0x4B, 0x31] }

  function StoredAll(files: seq<Entry>): Bytes {
    if files == [] then LeBytes(0, 4) else files[0].Stored() + StoredAll(files[1..])
  }

  // The stream cellar_prefix_backup writes for the files in directory order.
  function Backup(files: seq<Entry>): Bytes {
    Magic() + StoredAll(files)
  }

  // ---- the reader ----

  // strstr(s, "..")
  predicate HasDotDot(s: Bytes) {
    exists i | 0 <= i < |s| - 1 :: s[i] == s[i + 1] == 0x2E
  }

  // One record: the terminator or a missing length, a record that is cut short or has a
  // bad path, or a file and the position after it.
  datatype Read = End | Broken | Got(file: Entry, next: nat)

  function ReadRecord(stream: Bytes, pos: nat): (r: Read)
    ensures r.Got? ==> pos < r.next <= |stream|
  {
    if pos + 4 > |stream| || Word(stream, pos, 4) == 0 then End
    else
      var plen := Word(stream, pos, 4);
      if plen >= MAX_PATH || pos + 4 + plen > |stream| then Broken
      else ReadData(stream, UpToNul(stream[pos + 4..pos + 4 + plen]), pos + 4 + plen)
  }

  function ReadData(stream: Bytes, path: Bytes, at: nat): (r: Read)
    ensures r.Got? ==> at < r.next <= |stream|
  {
    if HasDotDot(path) || at + 4 > |stream| then Broken
    else
      var dlen := Word(stream, at, 4);
      if at + 4 + dlen > |stream| then Broken
      else Got(Entry(path, stream[at + 4..at + 4 + dlen]), at + 4 + dlen)
  }

  // The files read from position pos on, and the status reading ends with.
  function Records(stream: Bytes, pos: nat): (Status, seq<Entry>)
    decreases |stream| - pos
  {
    match ReadRecord(stream, pos)
    case End => (Ok, [])
    case Broken => (InvalidArgument, [])
    case Got(f, next) => Before(f, Records(stream, next))
  }

  function Before(f: Entry, r: (Status, seq<Entry>)): (Status, seq<Entry>) {
    (r.0, [f] + r.1)
  }

  // ---- the round trip ----

  predicate GoodPath(path: Bytes) {
    0 < |path| < MAX_PATH && !HasDotDot(path)
  }

  predicate Archivable(f: Entry) {
    GoodPath(f.path) && |f.data| < TWO32
  }

  // Where the four parts of a stored file lie.
  ghost predicate RecordAt(stream: Bytes, pos: nat, f: Entry) {
    var at := pos + 4 + |f.path|;
    && at + 4 + |f.data| <= |stream|
    && Word(stream, pos, 4) == |f.path| % TWO32 && stream[pos + 4..at] == f.path
    && Word(stream, at, 4) == |f.data| % TWO32 && stream[at + 4..at + 4 + |f.data|] == f.data
  }

  lemma StoredHolds(stream: Bytes, pos: nat, f: Entry)
    requires Holds(stream, pos, f.Stored())
    ensures Holds(stream, pos, LeBytes(|f.path|, 4)) && Holds(stream, pos + 4, f.path)
    ensures Holds(stream, pos + 4 + |f.path|, LeBytes(|f.data|, 4))
    ensures Holds(stream, pos + 8 + |f.path|, f.data)
  {
    HoldsFour(stream, pos, LeBytes(|f.path|, 4), f.path, LeBytes(|f.data|, 4), f.data);
  }

  lemma StoredParts(stream: Bytes, pos: nat, f: Entry)
    requires Holds(stream, pos, f.Stored())
    ensures RecordAt(stream, pos, f)
  {
    StoredHolds(stream, pos, f);
    Field32(stream, pos, |f.path|);
    Field32(stream, pos + 4 + |f.path|, |f.data|);
  }

  // A file is read back as it is if and only if it is archivable.
  lemma FirstRecord(stream: Bytes, pos: nat, f: Entry, rest: Bytes)
    requires Holds(stream, pos, f.Stored() + rest) && 0 !in f.path
    ensures Holds(stream, pos + 8 + |f.path| + |f.data|, rest)
    ensures Archivable(f) ==> ReadRecord(stream, pos) == Got(f, pos + 8 + |f.path| + |f.data|)
    ensures !Archivable(f) && ReadRecord(stream, pos).Got? ==> ReadRecord(stream, pos).file != f
  {
    HoldsParts(stream, pos, f.Stored(), rest);
    StoredParts(stream, pos, f);
    RecordBack(stream, pos, f);
  }

  lemma RecordBack(stream: Bytes, pos: nat, f: Entry)
    requires RecordAt(stream, pos, f) && 0 !in f.path
    ensures Archivable(f) ==> ReadRecord(stream, pos) == Got(f, pos + 8 + |f.path| + |f.data|)
    ensures !Archivable(f) && ReadRecord(stream, pos).Got? ==> ReadRecord(stream, pos).file != f
  {
    WholeIffNoNul(f.path);
    if GoodPath(f.path) {
      PathBack(stream, pos, f);
      DataBack(stream, pos + 4 + |f.path|, f);
    } else {
      BadPathLost(stream, pos, f);
    }
  }

  lemma PathBack(stream: Bytes, pos: nat, f: Entry)
    requires GoodPath(f.path) && UpToNul(f.path) == f.path && pos + 4 + |f.path| <= |stream|
    requires Word(stream, pos, 4) == |f.path| % TWO32
    requires stream[pos + 4..pos + 4 + |f.path|] == f.path
    ensures ReadRecord(stream, pos) == ReadData(stream, f.path, pos + 4 + |f.path|)
  {
    ShortLength(f.path);
    assert Word(stream, pos, 4) == |f.path|;
  }

  lemma ShortLength(path: Bytes)
    requires |path| < MAX_PATH
    ensures |path| % TWO32 == |path|
  {
  }

  lemma DataBack(stream: Bytes, at: nat, f: Entry)
    requires GoodPath(f.path) && at + 4 + |f.data| <= |stream|
    requires Word(stream, at, 4) == |f.data| % TWO32
    requires stream[at + 4..at + 4 + |f.data|] == f.data
    ensures var r := ReadData(stream, f.path, at);
      if |f.data| < TWO32 then r == Got(f, at + 4 + |f.data|) else r.Got? ==> r.file != f
  {
  }

  lemma BadPathLost(stream: Bytes, pos: nat, f: Entry)
    requires !GoodPath(f.path) && UpToNul(f.path) == f.path && pos + 4 + |f.path| <= |stream|
    requires Word(stream, pos, 4) == |f.path| % TWO32
    requires stream[pos + 4..pos + 4 + |f.path|] == f.path
    ensures ReadRecord(stream, pos).Got? ==> ReadRecord(stream, pos).file != f
  {
    var plen := |f.path| % TWO32;
    if 0 < plen < MAX_PATH && plen < |f.path| {
      WholeIffNoNul(stream[pos + 4..pos + 4 + plen]);
    }
  }

  // Reading what was stored gives back exactly the stored files if and only if every file
  // is archivable.
  lemma {:induction false} RecordsOfStored(stream: Bytes, pos: nat, files: seq<Entry>)
    requires Holds(stream, pos, StoredAll(files)) && forall f <- files :: 0 !in f.path
    ensures Records(stream, pos) == (Ok, files) <==> forall f <- files :: Archivable(f)
    decreases |files|
  {
    if files == [] {
      Field32(stream, pos, 0);
    } else {
      var f, rest := files[0], files[1..];
      var next := pos + 8 + |f.path| + |f.data|;
      FirstRecord(stream, pos, f, StoredAll(rest));
      RecordsOfStored(stream, next, rest);
      assert files == [f] + rest;
      OneMore(stream, pos, f, rest, next);
    }
  }

  lemma OneMore(stream: Bytes, pos: nat, f: Entry, rest: seq<Entry>, next: nat)
    requires Archivable(f) ==> ReadRecord(stream, pos) == Got(f, next)
    requires !Archivable(f) && ReadRecord(stream, pos).Got? ==> ReadRecord(stream, pos).file != f
    requires Records(stream, next) == (Ok, rest) <==> forall g <- rest :: Archivable(g)
    ensures Records(stream, pos) == (Ok, [f] + rest) <==> forall g <- [f] + rest :: Archivable(g)
  {
    var first := ReadRecord(stream, pos);
    var tail := if first.Got? then Records(stream, first.next) else (Ok, []);
    FirstDecides(first, tail, f, rest, Archivable(f), forall g <- rest :: Archivable(g));
    assert f in [f] + rest && forall g <- [f] + rest :: g == f || g in rest;
  }

  lemma FirstDecides(first: Read, tail: (Status, seq<Entry>), f: Entry, rest: seq<Entry>, ok: bool, restOk: bool)
    requires if ok then first.Got? && first.file == f else first.Got? ==> first.file != f
    requires ok ==> (tail == (Ok, rest) <==> restOk)
    ensures var r := match first
        case End => (Ok, [])
        case Broken => (InvalidArgument, [])
        case Got(g, _) => Before(g, tail);
      r == (Ok, [f] + rest) <==> ok && restOk
  {
    if first.Got? {
      ConsEqual(f, tail.1, rest);
      assert ([first.file] + tail.1)[0] == first.file && ([f] + rest)[0] == f;
    }
  }

  lemma ConsEqual(f: Entry, a: seq<Entry>, b: seq<Entry>)
    ensures [f] + a == [f] + b <==> a == b
  {
    assert ([f] + a)[1..] == a && ([f] + b)[1..] == b;
  }

  lemma RestoreUndoesBackupIff(files: seq<Entry>)
    requires forall f <- files :: 0 !in f.path
    ensures Records(Backup(files), 4) == (Ok, files) <==> forall f <- files :: Archivable(f)
  {
    HoldsAtEnd(Magic(), StoredAll(files));
    RecordsOfStored(Backup(files), 4, files);
  }

  // ---- bottles ----

  type FileMap = map<Bytes, Bytes>

  function Ascii(s: string): Bytes {
    seq(|s|, i requires 0 <= i < |s| => (s[i] as int) % 0x100)
  }

  function ConfPath(): Bytes { Ascii("prefix.conf") }

  // The configuration cellar_prefix_create writes, in every bottle it is given.
  function DefaultConf(): Bytes {
    Ascii("version_mode=2\ngfx=Vulkan\naudio=ALSA\narch=win64\nrunner=stable\n")
  }

  // fopen fails on the bottle directory itself, which the empty path names.
  function WriteFile(files: FileMap, e: Entry): FileMap {
    if e.path == [] then files else files[e.path := e.data]
  }

  function WriteAll(files: FileMap, entries: seq<Entry>): FileMap {
    if entries == [] then files
    else WriteFile(WriteAll(files, entries[..|entries| - 1]), entries[|entries| - 1])
  }

  predicate HasMagic(stream: Bytes) {
    |stream| >= 4 && stream[..4] == Magic()
  }

  // The status and files cellar_prefix_restore leaves in a bottle that held these files.
  function Restored(files: FileMap, stream: Bytes): (Status, FileMap) {
    if !HasMagic(stream) then (InvalidArgument, files)
    else
      var r := Records(stream, 4);
      (r.0, WriteAll(files[ConfPath() := DefaultConf()], r.1))
  }

  // The walk visits every file of the bottle once, in directory order.
  ghost predicate Lists(order: seq<Bytes>, files: FileMap) {
    && (forall p <- order :: p in files)
    && (forall p <- files :: p in order)
  }

  function Walk(order: seq<Bytes>, files: FileMap): (entries: seq<Entry>)
    requires forall p <- order :: p in files
    ensures |entries| == |order|
    ensures forall i | 0 <= i < |order| :: entries[i] == Entry(order[i], files[order[i]])
  {
    seq(|order|, i requires 0 <= i < |order| => Entry(order[i], files[order[i]]))
  }

  lemma WriteAllMerges(base: FileMap, order: seq<Bytes>, files: FileMap)
    requires forall p <- order :: p in files && p != []
    ensures forall p :: p in WriteAll(base, Walk(order, files)) <==> p in base || p in order
    ensures forall p <- WriteAll(base, Walk(order, files)) ::
      WriteAll(base, Walk(order, files))[p] == if p in order then files[p] else base[p]
  {
    forall p
      ensures p in WriteAll(base, Walk(order, files)) <==> p in base || p in order
      ensures p in base || p in order ==>
        WriteAll(base, Walk(order, files))[p] == if p in order then files[p] else base[p]
    {
      WrittenAt(base, order, files, p);
    }
  }

  lemma {:induction false} WrittenAt(base: FileMap, order: seq<Bytes>, files: FileMap, p: Bytes)
    requires forall p <- order :: p in files && p != []
    ensures var w := WriteAll(base, Walk(order, files));
      && (p in w <==> p in base || p in order)
      && (p in w ==> w[p] == if p in order then files[p] else base[p])
    decreases |order|
  {
    if order != [] {
      var front, last := order[..|order| - 1], order[|order| - 1];
      WrittenAt(base, front, files, p);
      assert order == front + [last];
      WalkLast(front, last, files);
      OneMoreWritten(base, Walk(front, files), Entry(last, files[last]));
    }
  }

  lemma WalkLast(front: seq<Bytes>, last: Bytes, files: FileMap)
    requires last in files && forall p <- front :: p in files
    ensures Walk(front + [last], files) == Walk(front, files) + [Entry(last, files[last])]
  {
  }

  lemma MagicFirst(rest: Bytes)
    ensures HasMagic(Magic() + rest)
  {
    assert (Magic() + rest)[..4] == Magic();
  }

  lemma WrittenIsMerge(base: FileMap, order: seq<Bytes>, files: FileMap)
    requires Lists(order, files) && [] !in files
    ensures WriteAll(base, Walk(order, files)) == base + files
  {
    WriteAllMerges(base, order, files);
  }

  // Restoring a backup over a bottle puts every backed-up file in place, a default
  // configuration where the backup has none, and keeps the bottle's other files.
  lemma RestoreMerges(src: FileMap, order: seq<Bytes>, dst: FileMap)
    requires Lists(order, src) && AllArchivable(src) && forall p <- src :: 0 !in p
    ensures Restored(dst, Backup(Walk(order, src))) == (Ok, dst[ConfPath() := DefaultConf()] + src)
  {
    var entries := Walk(order, src);
    assert forall f <- entries :: 0 !in f.path && Archivable(f);
    RestoreUndoesBackupIff(entries);
    MagicFirst(StoredAll(entries));
    WrittenIsMerge(dst[ConfPath() := DefaultConf()], order, src);
  }

  // What the reader can deliver at all.
  predicate Readable(f: Entry) {
    |f.path| < MAX_PATH && !HasDotDot(f.path) && |f.data| < TWO32
  }

  lemma ReadIsReadable(stream: Bytes, pos: nat)
    ensures ReadRecord(stream, pos).Got? ==> Readable(ReadRecord(stream, pos).file)
  {
    if pos + 4 <= |stream| {
      var plen := Word(stream, pos, 4);
      if 0 < plen < MAX_PATH && pos + 4 + plen <= |stream| {
        WholeIffNoNul(stream[pos + 4..pos + 4 + plen]);
        var at := pos + 4 + plen;
        if at + 4 <= |stream| {
          WordIs(stream, at, 4);
          Pow256Constants();
        }
      }
    }
  }

  lemma {:induction false} RecordsAreReadable(stream: Bytes, pos: nat)
    ensures forall f <- Records(stream, pos).1 :: Readable(f)
    decreases |stream| - pos
  {
    ReadIsReadable(stream, pos);
    var read := ReadRecord(stream, pos);
    if read.Got? {
      RecordsAreReadable(stream, read.next);
    }
  }

  lemma {:induction false} WrittenFromEntries(base: FileMap, entries: seq<Entry>, p: Bytes)
    requires p in WriteAll(base, entries)
    ensures (p in base && WriteAll(base, entries)[p] == base[p])
         || (p != [] && Entry(p, WriteAll(base, entries)[p]) in entries)
    decreases |entries|
  {
    if entries != [] {
      var front, last := entries[..|entries| - 1], entries[|entries| - 1];
      assert last in entries;
      if last.path == [] || last.path != p {
        WrittenFromEntries(base, front, p);
        assert entries == front + [last];
      }
    }
  }

  // Whatever the archive, a restored bottle holds readable files only.
  lemma RestoredIsReadable(stream: Bytes, p: Bytes)
    requires p in Restored(map[], stream).1
    ensures p != [] && Readable(Entry(p, Restored(map[], stream).1[p]))
  {
    if HasMagic(stream) {
      var base: FileMap := map[ConfPath() := DefaultConf()];
      var entries := Records(stream, 4).1;
      RecordsAreReadable(stream, 4);
      ConfIsReadable();
      WrittenFromEntries(base, entries, p);
    }
  }

  lemma ConfIsReadable()
    ensures ConfPath() != [] && Readable(Entry(ConfPath(), DefaultConf()))
  {
    var p := ConfPath();
    assert |p| == 11;
    assert forall i | 0 <= i < 10 :: !(p[i] == p[i + 1] == 0x2E);
  }

  predicate AllArchivable(files: FileMap) {
    forall p <- files :: GoodPath(p) && |files[p]| < TWO32
  }

  // A clone under a fresh name has the same files exactly when the source has a prefix.conf,
  // which it would gain otherwise, and every file can be archived.
  lemma CloneIsEqualIff(src: FileMap, order: seq<Bytes>)
    requires Lists(order, src) && forall p <- src :: 0 !in p
    ensures Restored(map[], Backup(Walk(order, src))) == (Ok, src)
      <==> ConfPath() in src && AllArchivable(src)
  {
    if AllArchivable(src) {
      ArchivableClone(src, order);
    } else {
      UnreadableIsLost(src, Backup(Walk(order, src)));
    }
  }

  lemma ArchivableClone(src: FileMap, order: seq<Bytes>)
    requires Lists(order, src) && AllArchivable(src) && forall p <- src :: 0 !in p
    ensures Restored(map[], Backup(Walk(order, src))) == (Ok, src) <==> ConfPath() in src
  {
    RestoreMerges(src, order, map[]);
    InMerge(src, ConfPath(), DefaultConf());
  }

  lemma UnreadableIsLost(src: FileMap, stream: Bytes)
    requires !AllArchivable(src)
    ensures Restored(map[], stream).1 != src
  {
    var p :| p in src && !(GoodPath(p) && |src[p]| < TWO32);
    if p in Restored(map[], stream).1 {
      RestoredIsReadable(stream, p);
    }
  }

  lemma InMerge(src: FileMap, p: Bytes, data: Bytes)
    ensures map[][p := data] + src == src <==> p in src
  {
    var m := map[][p := data] + src;
    assert p in m;
    if p in src {
      assert m.Keys == src.Keys;
    }
  }

  // ---- the file operations ----

  class Bottle {
    var files: FileMap

    constructor (files: FileMap)
      ensures this.files == files
    {
      this.files := files;
    }

    // cellar_prefix_backup: the archive, file by file.
    method BackupTo(order: seq<Bytes>) returns (stream: Bytes)
      requires forall p <- order :: p in files
      ensures stream == Backup(Walk(order, files))
    {
      stream := Magic();
      ghost var entries := Walk(order, files);
      for i := 0 to |order|
        invariant stream + StoredAll(entries[i..]) == Backup(entries)
      {
        var path := order[i];
        var e := Entry(path, files[path]);
        assert entries[i..] == [e] + entries[i + 1..];
        Regroup(stream, e.Stored(), StoredAll(entries[i + 1..]));
        stream := BackupFile(stream, path, files[path]);
      }
      assert entries[|order|..] == [];
      stream := stream + LeBytes(0, 4);
    }

    // backup_file
    method BackupFile(stream: Bytes, path: Bytes, data: Bytes) returns (longer: Bytes)
      ensures longer == stream + Entry(path, data).Stored()
    {
      var plen, dlen := LeBytes(|path|, 4), LeBytes(|data|, 4);
      longer := stream + plen;
      longer := longer + path;
      longer := longer + dlen;
      longer := longer + data;
      Append4(stream, plen, path, dlen, data);
    }

    // cellar_prefix_restore on any bytes: it always ends, and files written before an
    // error stay.
    method RestoreFrom(stream: Bytes) returns (status: Status)
      modifies this
      ensures (status, files) == Restored(old(files), stream)
    {
      if |stream| < 4 || stream[..4] != Magic() {
        return InvalidArgument;
      }
      files := files[ConfPath() := DefaultConf()];
      ghost var base, all := files, Records(stream, 4);
      ghost var done: seq<Entry> := [];
      assert done + all.1 == all.1;
      var pos := 4;
      while true
        invariant files == WriteAll(base, done)
        invariant all == (Records(stream, pos).0, done + Records(stream, pos).1)
        decreases |stream| - pos
      {
        var read := NextRecord(stream, pos);
        if !read.Got? {
          assert done + [] == done;
          return if read.End? then Ok else InvalidArgument;
        }
        var e := read.file;
        OneMoreWritten(base, done, e);
        Snoc(done, e, Records(stream, read.next).1);
        if e.path != [] {
          files := files[e.path := e.data];
        }
        done := done + [e];
        pos := read.next;
      }
    }

    // The reads of one loop round.
    method NextRecord(stream: Bytes, pos: nat) returns (read: Read)
      ensures read == ReadRecord(stream, pos)
    {
      if pos + 4 > |stream| {
        return End;
      }
      var plen := Word(stream, pos, 4);
      if plen == 0 {
        return End;
      }
      if plen >= MAX_PATH || pos + 4 + plen > |stream| {
        return Broken;
      }
      var path := UpToNul(stream[pos + 4..pos + 4 + plen]);
      var at := pos + 4 + plen;
      if HasDotDot(path) || at + 4 > |stream| {
        return Broken;
      }
      var dlen := Word(stream, at, 4);
      if at + 4 + dlen > |stream| {
        return Broken;
      }
      return Got(Entry(path, stream[at + 4..at + 4 + dlen]), at + 4 + dlen);
    }
  }

  // cellar_prefix_clone through a temporary archive.
  method Clone(src: Bottle, dst: Bottle, order: seq<Bytes>) returns (status: Status)
    requires Lists(order, src.files)
    modifies dst
    ensures (status, dst.files) == Restored(old(dst.files), Backup(Walk(order, old(src.files))))
  {
    var stream := src.BackupTo(order);
    status := dst.RestoreFrom(stream);
  }

  lemma Append4(s: Bytes, a: Bytes, b: Bytes, c: Bytes, d: Bytes)
    ensures s + a + b + c + d == s + (a + (b + (c + d)))
  {
  }

  lemma OneMoreWritten(base: FileMap, done: seq<Entry>, e: Entry)
    ensures WriteAll(base, done + [e]) == WriteFile(WriteAll(base, done), e)
  {
    assert (done + [e])[..|done + [e]| - 1] == done;
  }

  lemma Snoc(done: seq<Entry>, e: Entry, rest: seq<Entry>)
    ensures done + ([e] + rest) == done + [e] + rest
  {
  }
}
