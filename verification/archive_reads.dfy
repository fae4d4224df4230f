// Which archives restore accepts, and what it makes of one that is cut short or holds a bad path.
module ArchiveReads {
  import opened Status
  import opened Words
  import opened Archive

  // Between its length fields a record may hold any path of 1 to 511 bytes that has no "..", up
  // to its first NUL, and less than 4 GiB of data.
  predicate Accepted(f: Entry) {
    0 < |f.path| < 512 && !HasDotDot(UpToNul(f.path)) && |f.data| < TWO32
  }

  lemma DotDotIff(s: Bytes)
    ensures HasDotDot(s) <==> exists a: Bytes, b: Bytes :: s == a + [0x2E, 0x2E] + b
  {
    if HasDotDot(s) {
      var i :| 0 <= i < |s| - 1 && s[i] == s[i + 1] == 0x2E;
      assert s == s[..i] + [0x2E, 0x2E] + s[i + 2..];
    }
    if a: Bytes, b: Bytes :| s == a + [0x2E, 0x2E] + b {
      assert s[|a|] == s[|a| + 1] == 0x2E;
    }
  }

  predicate AllAccepted(files: seq<Entry>) {
    forall f <- files :: Accepted(f)
  }

  function Concat(files: seq<Entry>): Bytes {
    if files == [] then [] else files[0].Stored() + Concat(files[1..])
  }

  function Length(f: Entry): nat { 8 + |f.path| + |f.data| }

  ghost predicate Lies(stream: Bytes, pos: nat, f: Entry) { Holds(stream, pos, f.Stored()) }

  // The records lie in the stream one after the other.
  ghost predicate AllLie(stream: Bytes, pos: nat, files: seq<Entry>)
    decreases |files|
  {
    pos <= |stream| &&
    (files == [] || (Lies(stream, pos, files[0]) && AllLie(stream, pos + Length(files[0]), files[1..])))
  }

  function EndOf(pos: nat, files: seq<Entry>): nat
    decreases |files|
  {
    if files == [] then pos else EndOf(pos + Length(files[0]), files[1..])
  }

  lemma {:induction false} ConcatLies(stream: Bytes, pos: nat, files: seq<Entry>)
    requires Holds(stream, pos, Concat(files))
    ensures AllLie(stream, pos, files) && EndOf(pos, files) == pos + |Concat(files)|
    decreases |files|
  {
    if files != [] {
      HoldsParts(stream, pos, files[0].Stored(), Concat(files[1..]));
      ConcatLies(stream, pos + Length(files[0]), files[1..]);
    }
  }

  // A stored file under the name it is restored under.
  function Named(f: Entry): Entry { Entry(UpToNul(f.path), f.data) }

  function AllNamed(files: seq<Entry>): (named: seq<Entry>)
    ensures |named| == |files|
    ensures forall i | 0 <= i < |files| :: named[i] == Named(files[i])
  {
    seq(|files|, i requires 0 <= i < |files| => Named(files[i]))
  }

  // Reading ends: no whole length is left, or it is zero.
  predicate Ends(stream: Bytes, pos: nat) {
    pos + 4 > |stream| || stream[pos..pos + 4] == [0, 0, 0, 0]
  }

  lemma EndsIff(stream: Bytes, pos: nat)
    ensures ReadRecord(stream, pos).End? <==> Ends(stream, pos)
  {
    if pos + 4 <= |stream| {
      WordIs(stream, pos, 4);
      LeBytesOfValue(stream[pos..pos + 4]);
      ZeroWord();
    }
  }

  lemma ZeroWord()
    ensures LeBytes(0, 4) == [0, 0, 0, 0] && LeValue([0, 0, 0, 0]) == 0
  {
    LeRoundTrip(0, 4);
    Pow256Constants();
    assert LeBytes(0, 3) == [0, 0, 0];
  }

  // ---- whole records ----

  lemma PathRead(stream: Bytes, pos: nat, f: Entry)
    requires 0 < |f.path| < 512 && Holds(stream, pos, LeBytes(|f.path|, 4))
    ensures pos + 4 + |f.path| > |stream| ==> ReadRecord(stream, pos) == Broken
    ensures Holds(stream, pos + 4, f.path) ==>
      ReadRecord(stream, pos) == ReadData(stream, UpToNul(f.path), pos + 4 + |f.path|)
  {
    Field32(stream, pos, |f.path|);
    assert Word(stream, pos, 4) == |f.path|;
  }

  lemma ReadsAccepted(stream: Bytes, pos: nat, f: Entry)
    requires Lies(stream, pos, f) && Accepted(f)
    ensures ReadRecord(stream, pos) == Got(Named(f), pos + Length(f))
  {
    StoredHolds(stream, pos, f);
    PathRead(stream, pos, f);
    DataRead(stream, pos + 4 + |f.path|, f);
  }

  lemma DataRead(stream: Bytes, at: nat, f: Entry)
    requires Accepted(f) && Holds(stream, at, LeBytes(|f.data|, 4)) && Holds(stream, at + 4, f.data)
    ensures ReadData(stream, UpToNul(f.path), at) == Got(Named(f), at + 4 + |f.data|)
  {
    Field32(stream, at, |f.data|);
    assert Word(stream, at, 4) == |f.data|;
  }

  lemma ReadsNone(stream: Bytes, pos: nat)
    ensures ReadRecord(stream, pos).End? ==> Records(stream, pos) == (Ok, [])
    ensures ReadRecord(stream, pos).Broken? ==> Records(stream, pos) == (InvalidArgument, [])
  {
  }

  // A chain of records, each taken by one step of a reader.
  ghost predicate Chain(lies: (nat, Entry) -> bool, pos: nat, files: seq<Entry>)
    decreases |files|
  {
    files == [] || (lies(pos, files[0]) && Chain(lies, pos + Length(files[0]), files[1..]))
  }

  lemma {:induction false} ChainReads(
    read: nat -> (Status, seq<Entry>), lies: (nat, Entry) -> bool, pos: nat, files: seq<Entry>,
    status: Status, more: seq<Entry>)
    requires forall p: nat, f: Entry | lies(p, f) :: read(p) == Before(Named(f), read(p + Length(f)))
    requires Chain(lies, pos, files) && read(EndOf(pos, files)) == (status, more)
    ensures read(pos) == (status, AllNamed(files) + more)
    decreases |files|
  {
    if files == [] {
      assert AllNamed(files) + more == more;
    } else {
      var f, rest := files[0], files[1..];
      ChainReads(read, lies, pos + Length(f), rest, status, more);
      NamedFirst(f, rest, more);
      assert files == [f] + rest;
    }
  }

  lemma {:induction false} ChainRead(
    lies: (nat, Entry) -> bool, ok: nat -> bool, ends: nat -> bool, next: nat -> Entry, pos: nat, bound: nat)
    returns (files: seq<Entry>)
    requires forall p: nat {:trigger next(p)} | ok(p) && p <= bound && !ends(p) ::
      lies(p, next(p)) && p + Length(next(p)) <= bound && ok(p + Length(next(p)))
    requires ok(pos) && pos <= bound
    ensures Chain(lies, pos, files) && ends(EndOf(pos, files))
    decreases bound - pos
  {
    if ends(pos) {
      return [];
    }
    var f := next(pos);
    var rest := ChainRead(lies, ok, ends, next, pos + Length(f), bound);
    files := [f] + rest;
    assert files[1..] == rest;
  }

  // An accepted record in the stream.
  ghost predicate Reads(stream: Bytes, pos: nat, f: Entry) {
    Lies(stream, pos, f) && Accepted(f)
  }

  lemma {:induction false} AllLieIsChain(stream: Bytes, pos: nat, files: seq<Entry>)
    ensures pos <= |stream| ==>
      (Chain((p: nat, f: Entry) => Reads(stream, p, f), pos, files) <==> AllLie(stream, pos, files) && AllAccepted(files))
    decreases |files|
  {
    if files != [] {
      AllLieIsChain(stream, pos + Length(files[0]), files[1..]);
      assert forall f <- files :: f == files[0] || f in files[1..];
    }
  }

  lemma ReadsStep(stream: Bytes, pos: nat, f: Entry)
    requires Reads(stream, pos, f)
    ensures Records(stream, pos) == Before(Named(f), Records(stream, pos + Length(f)))
  {
    ReadsAccepted(stream, pos, f);
  }

  // Reading goes on behind whole records.
  lemma ReadsAll(stream: Bytes, pos: nat, files: seq<Entry>, status: Status, more: seq<Entry>)
    requires AllLie(stream, pos, files) && AllAccepted(files)
    requires Records(stream, EndOf(pos, files)) == (status, more)
    ensures Records(stream, pos) == (status, AllNamed(files) + more)
  {
    forall p: nat, f: Entry | Reads(stream, p, f)
      ensures Records(stream, p) == Before(Named(f), Records(stream, p + Length(f)))
    {
      ReadsStep(stream, p, f);
    }
    AllLieIsChain(stream, pos, files);
    ChainReads((p: nat) => Records(stream, p), (p: nat, f: Entry) => Reads(stream, p, f), pos, files, status, more);
  }

  lemma NamedFirst(f: Entry, rest: seq<Entry>, more: seq<Entry>)
    ensures AllNamed([f] + rest) + more == [Named(f)] + (AllNamed(rest) + more)
  {
  }

  // What was read as a record is one.
  lemma GotIsAccepted(stream: Bytes, pos: nat) returns (f: Entry)
    requires ReadRecord(stream, pos).Got?
    ensures Accepted(f) && Lies(stream, pos, f)
    ensures ReadRecord(stream, pos) == Got(Named(f), pos + Length(f))
  {
    var plen := Word(stream, pos, 4);
    var at := pos + 4 + plen;
    var dlen := Word(stream, at, 4);
    f := Entry(stream[pos + 4..at], stream[at + 4..at + 4 + dlen]);
    Spells(stream, pos);
    Spells(stream, at);
    FourHold(stream, pos, LeBytes(plen, 4), f.path, LeBytes(dlen, 4), f.data);
  }

  lemma FourHold(stream: Bytes, pos: nat, a: Bytes, b: Bytes, c: Bytes, d: Bytes)
    requires Holds(stream, pos, a) && Holds(stream, pos + |a|, b)
    requires Holds(stream, pos + |a| + |b|, c) && Holds(stream, pos + |a| + |b| + |c|, d)
    ensures Holds(stream, pos, a + (b + (c + d)))
  {
    HoldsParts(stream, pos + |a| + |b|, c, d);
    HoldsParts(stream, pos + |a|, b, c + d);
    HoldsParts(stream, pos, a, b + (c + d));
  }

  lemma Spells(stream: Bytes, pos: nat)
    requires pos + 4 <= |stream|
    ensures Word(stream, pos, 4) < TWO32 && Holds(stream, pos, LeBytes(Word(stream, pos, 4), 4))
  {
    WordIs(stream, pos, 4);
    Pow256Constants();
    LeBytesOfValue(stream[pos..pos + 4]);
  }

  ghost predicate OkFrom(stream: Bytes, pos: nat) { Records(stream, pos).0 == Ok }

  ghost predicate Goes(stream: Bytes, pos: nat, f: Entry) {
    Reads(stream, pos, f) && pos + Length(f) <= |stream| && OkFrom(stream, pos + Length(f))
  }

  ghost function Next(stream: Bytes, pos: nat): Entry {
    if exists f: Entry :: Goes(stream, pos, f) then
      var f: Entry :| Goes(stream, pos, f);
      f
    else Entry([], [])
  }

  lemma OkStep(stream: Bytes, pos: nat)
    requires OkFrom(stream, pos) && pos <= |stream| && !Ends(stream, pos)
    ensures Goes(stream, pos, Next(stream, pos))
  {
    EndsIff(stream, pos);
    ReadsNone(stream, pos);
    var f := GotIsAccepted(stream, pos);
    ReadsStep(stream, pos, f);
    assert Goes(stream, pos, f);
  }

  lemma OkSteps(stream: Bytes)
    ensures forall p: nat {:trigger Next(stream, p)} | OkFrom(stream, p) && p <= |stream| && !Ends(stream, p) ::
      Goes(stream, p, Next(stream, p))
  {
    forall p: nat {:trigger Next(stream, p)} | OkFrom(stream, p) && p <= |stream| && !Ends(stream, p)
      ensures Goes(stream, p, Next(stream, p))
    {
      OkStep(stream, p);
    }
  }

  lemma OkChain(stream: Bytes, pos: nat) returns (files: seq<Entry>)
    requires OkFrom(stream, pos) && pos <= |stream|
    ensures Chain((p: nat, f: Entry) => Reads(stream, p, f), pos, files) && Ends(stream, EndOf(pos, files))
  {
    OkSteps(stream);
    files := ChainRead(
      (p: nat, f: Entry) => Reads(stream, p, f), (p: nat) => OkFrom(stream, p), (p: nat) => Ends(stream, p),
      (p: nat) => Next(stream, p), pos, |stream|);
  }

  lemma OkIsAccepted(stream: Bytes, pos: nat) returns (files: seq<Entry>)
    requires OkFrom(stream, pos) && pos <= |stream|
    ensures AllAccepted(files) && AllLie(stream, pos, files) && Ends(stream, EndOf(pos, files))
  {
    files := OkChain(stream, pos);
    AllLieIsChain(stream, pos, files);
  }

  lemma {:induction false} OkOrInvalid(stream: Bytes, pos: nat)
    ensures Records(stream, pos).0 == Ok || Records(stream, pos).0 == InvalidArgument
    decreases |stream| - pos
  {
    var read := ReadRecord(stream, pos);
    if read.Got? {
      OkOrInvalid(stream, read.next);
    }
  }

  // ---- accepted archives ----

  // The magic, whole acceptable records, and an end; anything may follow a zero length.
  ghost predicate IsArchiveOf(stream: Bytes, files: seq<Entry>) {
    && AllAccepted(files) && Holds(stream, 0, [0x43, 0x42, 0x4B, 0x31])
    && AllLie(stream, 4, files) && Ends(stream, EndOf(4, files))
  }

  function Base(bottle: FileMap): FileMap { bottle[ConfPath() := DefaultConf()] }

  // Restoring such an archive puts its files in place.
  lemma RestoresArchive(bottle: FileMap, stream: Bytes, files: seq<Entry>)
    requires IsArchiveOf(stream, files)
    ensures Restored(bottle, stream) == (Ok, WriteAll(Base(bottle), AllNamed(files)))
  {
    var at := EndOf(4, files);
    EndsIff(stream, at);
    ReadsNone(stream, at);
    Continues(bottle, stream, files, Ok);
  }

  // A restore succeeds on such archives only, reports an invalid argument on all others, and
  // leaves the bottle alone when the magic is missing.
  lemma RestoresIff(bottle: FileMap, stream: Bytes)
    ensures Restored(bottle, stream).0 == Ok <==> exists files :: IsArchiveOf(stream, files)
    ensures Restored(bottle, stream).0 == Ok || Restored(bottle, stream).0 == InvalidArgument
    ensures !Holds(stream, 0, [0x43, 0x42, 0x4B, 0x31]) ==> Restored(bottle, stream) == (InvalidArgument, bottle)
  {
    MagicHolds(stream);
    OkOrInvalid(stream, 4);
    if Restored(bottle, stream).0 == Ok {
      var files := OkIsAccepted(stream, 4);
      assert IsArchiveOf(stream, files);
    }
    if files :| IsArchiveOf(stream, files) {
      RestoresArchive(bottle, stream, files);
    }
  }

  lemma MagicHolds(stream: Bytes)
    ensures HasMagic(stream) <==> Holds(stream, 0, [0x43, 0x42, 0x4B, 0x31])
  {
  }

  // ---- damaged archives ----

  // What follows the magic and some whole records decides.
  lemma Continues(bottle: FileMap, stream: Bytes, good: seq<Entry>, status: Status)
    requires AllAccepted(good) && Holds(stream, 0, [0x43, 0x42, 0x4B, 0x31]) && AllLie(stream, 4, good)
    requires Records(stream, EndOf(4, good)) == (status, [])
    ensures Restored(bottle, stream) == (status, WriteAll(Base(bottle), AllNamed(good)))
  {
    MagicHolds(stream);
    ReadsAll(stream, 4, good, status, []);
    assert AllNamed(good) + [] == AllNamed(good);
  }

  lemma Parts(good: seq<Entry>, rest: Bytes)
    ensures var stream, at := Magic() + Concat(good) + rest, 4 + |Concat(good)|;
      && Holds(stream, 0, [0x43, 0x42, 0x4B, 0x31]) && AllLie(stream, 4, good)
      && EndOf(4, good) == at <= |stream| && stream[at..] == rest
  {
    var stream := Magic() + Concat(good) + rest;
    HoldsInside(Magic(), Concat(good), rest);
    ConcatLies(stream, 4, good);
  }

  lemma CutHolds(stream: Bytes, pos: nat, a: Bytes, b: Bytes, left: nat)
    requires |a| <= left <= |a + b| && pos <= |stream| && stream[pos..] == (a + b)[..left]
    ensures Holds(stream, pos, a) && stream[pos + |a|..] == b[..left - |a|]
  {
    assert (a + b)[..left] == a + b[..left - |a|];
    assert stream[pos..][..|a|] == a;
    assert stream[pos..][|a|..] == stream[pos + |a|..];
  }

  // A record cut inside its first length is an end, and anywhere behind that an error.
  lemma CutRecord(stream: Bytes, pos: nat, f: Entry, left: nat)
    requires Accepted(f) && left < |f.Stored()| && pos <= |stream| && stream[pos..] == f.Stored()[..left]
    ensures ReadRecord(stream, pos) == if left < 4 then End else Broken
  {
    assert |stream| == pos + left;
    if left >= 4 {
      CutBody(stream, pos, f, left, LeBytes(|f.data|, 4) + f.data);
      PathRead(stream, pos, f);
    }
  }

  lemma CutBody(stream: Bytes, pos: nat, f: Entry, left: nat, data: Bytes)
    requires Accepted(f) && data == LeBytes(|f.data|, 4) + f.data
    requires 4 <= left < 4 + |f.path| + |data| && |stream| == pos + left
    requires stream[pos..] == (LeBytes(|f.path|, 4) + (f.path + data))[..left]
    ensures Holds(stream, pos, LeBytes(|f.path|, 4))
    ensures var at := pos + 4 + |f.path|;
      at <= |stream| ==> Holds(stream, pos + 4, f.path) && ReadData(stream, UpToNul(f.path), at) == Broken
  {
    CutHolds(stream, pos, LeBytes(|f.path|, 4), f.path + data, left);
    if left >= 4 + |f.path| {
      CutPath(stream, pos + 4, f, left - 4, data);
    }
  }

  lemma CutPath(stream: Bytes, pos: nat, f: Entry, left: nat, data: Bytes)
    requires Accepted(f) && data == LeBytes(|f.data|, 4) + f.data
    requires |f.path| <= left < |f.path| + |data| && |stream| == pos + left
    requires stream[pos..] == (f.path + data)[..left]
    ensures Holds(stream, pos, f.path) && ReadData(stream, UpToNul(f.path), pos + |f.path|) == Broken
  {
    CutHolds(stream, pos, f.path, data, left);
    CutData(stream, pos + |f.path|, f, left - |f.path|);
  }

  lemma CutData(stream: Bytes, at: nat, f: Entry, left: nat)
    requires Accepted(f) && left < 4 + |f.data| && |stream| == at + left
    requires stream[at..] == (LeBytes(|f.data|, 4) + f.data)[..left]
    ensures ReadData(stream, UpToNul(f.path), at) == Broken
  {
    if left >= 4 {
      CutHolds(stream, at, LeBytes(|f.data|, 4), f.data, left);
      Field32(stream, at, |f.data|);
    }
  }

  // An archive that ends in a part of a record.
  lemma CutInRecord(bottle: FileMap, good: seq<Entry>, f: Entry, left: nat)
    requires AllAccepted(good) && Accepted(f) && left < |f.Stored()|
    ensures Restored(bottle, Magic() + Concat(good) + f.Stored()[..left])
         == (if left < 4 then Ok else InvalidArgument, WriteAll(Base(bottle), AllNamed(good)))
  {
    var stream, at := Magic() + Concat(good) + f.Stored()[..left], 4 + |Concat(good)|;
    Parts(good, f.Stored()[..left]);
    CutRecord(stream, at, f, left);
    ReadsNone(stream, at);
    Continues(bottle, stream, good, if left < 4 then Ok else InvalidArgument);
  }

  lemma CutInEnd(bottle: FileMap, good: seq<Entry>, left: nat)
    requires AllAccepted(good) && left <= 4
    ensures Restored(bottle, Magic() + Concat(good) + LeBytes(0, 4)[..left])
         == (Ok, WriteAll(Base(bottle), AllNamed(good)))
  {
    var stream, at := Magic() + Concat(good) + LeBytes(0, 4)[..left], 4 + |Concat(good)|;
    Parts(good, LeBytes(0, 4)[..left]);
    ZeroWord();
    EndOfZeros(stream, at, left);
    EndsIff(stream, at);
    ReadsNone(stream, at);
    Continues(bottle, stream, good, Ok);
  }

  lemma EndOfZeros(stream: Bytes, at: nat, left: nat)
    requires left <= 4 && at <= |stream| && stream[at..] == [0, 0, 0, 0][..left]
    ensures Ends(stream, at)
  {
    if at + 4 <= |stream| {
      assert stream[at..at + 4] == stream[at..][..4];
    }
  }

  lemma CutAppend(a: Bytes, b: Bytes, n: nat)
    requires |a| <= n <= |a + b|
    ensures (a + b)[..n] == a + b[..n - |a|]
  {
  }

  // The number of records that lie in the first n bytes of the stored files.
  function WholeIn(files: seq<Entry>, n: nat): (w: nat)
    ensures w <= |files|
  {
    if files == [] || n < |files[0].Stored()| then 0
    else 1 + WholeIn(files[1..], n - |files[0].Stored()|)
  }

  // What is left of the next record, or of the terminator.
  function Rest(files: seq<Entry>, w: nat): Bytes
    requires w <= |files|
  {
    if w < |files| then files[w].Stored() else LeBytes(0, 4)
  }

  // The first n bytes are the whole records and a part of what comes next.
  lemma {:induction false} CutStored(files: seq<Entry>, n: nat) returns (part: Bytes)
    requires n <= |StoredAll(files)|
    ensures var w := WholeIn(files, n);
      && StoredAll(files)[..n] == Concat(files[..w]) + part
      && |part| <= |Rest(files, w)| && part == Rest(files, w)[..|part|]
      && (w < |files| ==> |part| < |Rest(files, w)|)
    decreases |files|
  {
    if files == [] || n < |files[0].Stored()| {
      part := StoredAll(files)[..n];
      NothingWhole(files, n);
    } else {
      var first, rest := files[0].Stored(), files[1..];
      part := CutStored(rest, n - |first|);
      ConcatFirst(files, WholeIn(rest, n - |first|));
      CutStep(first, StoredAll(rest), n, Concat(rest[..WholeIn(rest, n - |first|)]), part);
    }
  }

  lemma NothingWhole(files: seq<Entry>, n: nat)
    requires n <= |StoredAll(files)| && (files == [] || n < |files[0].Stored()|)
    ensures StoredAll(files)[..n] == Concat(files[..0]) + StoredAll(files)[..n]
    ensures n <= |Rest(files, 0)| && StoredAll(files)[..n] == Rest(files, 0)[..n]
  {
    if files != [] {
      CutFirst(files[0].Stored(), StoredAll(files[1..]), n);
    }
  }

  lemma CutFirst(a: Bytes, b: Bytes, n: nat)
    requires n <= |a|
    ensures (a + b)[..n] == a[..n]
  {
  }

  lemma CutStep(first: Bytes, tail: Bytes, n: nat, whole: Bytes, left: Bytes)
    requires |first| <= n <= |first + tail| && tail[..n - |first|] == whole + left
    ensures (first + tail)[..n] == first + whole + left
  {
    CutAppend(first, tail, n);
    Regroup(first, whole, left);
  }

  lemma ConcatFirst(files: seq<Entry>, w: nat)
    requires w < |files|
    ensures Concat(files[..w + 1]) == files[0].Stored() + Concat(files[1..][..w])
  {
    assert files[..w + 1][1..] == files[1..][..w];
  }

  // Restoring a cut backup: the files that are whole in it come back, and the restore succeeds
  // exactly when the cut is at a record's start or inside its four length bytes.
  lemma CutRestores(bottle: FileMap, files: seq<Entry>, n: nat)
    requires AllAccepted(files) && 4 <= n <= |Backup(files)|
    ensures var w := WholeIn(files, n - 4);
      var from := 4 + |Concat(files[..w])|;
      && from <= n && (w < |files| ==> n < from + |files[w].Stored()|)
      && Restored(bottle, Backup(files)[..n]) ==
           (if n < from + 4 || n == |Backup(files)| then Ok else InvalidArgument,
            WriteAll(Base(bottle), AllNamed(files[..w])))
  {
    var w := WholeIn(files, n - 4);
    var left := n - 4 - |Concat(files[..w])|;
    CutBackup(files, n, w);
    CutStatus(files, n, w);
    CutInRest(bottle, files, w, left);
  }

  lemma CutInRest(bottle: FileMap, files: seq<Entry>, w: nat, left: nat)
    requires AllAccepted(files) && w <= |files| && left <= |Rest(files, w)|
    requires w < |files| ==> left < |Rest(files, w)|
    ensures Restored(bottle, Magic() + Concat(files[..w]) + Rest(files, w)[..left])
         == (if w == |files| || left < 4 then Ok else InvalidArgument, WriteAll(Base(bottle), AllNamed(files[..w])))
  {
    if w < |files| {
      CutInRecord(bottle, files[..w], files[w], left);
    } else {
      CutInEnd(bottle, files[..w], left);
    }
  }

  lemma CutStatus(files: seq<Entry>, n: nat, w: nat)
    requires 4 <= n <= |Backup(files)| && w <= |files|
    requires w < |files| ==> n < 4 + |Concat(files[..w])| + |files[w].Stored()|
    ensures n < 8 + |Concat(files[..w])| || n == |Backup(files)| <==>
      w == |files| || n - 4 - |Concat(files[..w])| < 4
  {
    WholeLength(files);
    if w < |files| {
      LeavesMore(files, w);
    } else {
      assert files[..w] == files;
    }
  }

  lemma CutBackup(files: seq<Entry>, n: nat, w: nat)
    requires 4 <= n <= |Backup(files)| && w == WholeIn(files, n - 4)
    ensures |Concat(files[..w])| <= n - 4 <= |Concat(files[..w])| + |Rest(files, w)|
    ensures w < |files| ==> n - 4 < |Concat(files[..w])| + |Rest(files, w)|
    ensures Backup(files)[..n] == Magic() + Concat(files[..w]) + Rest(files, w)[..n - 4 - |Concat(files[..w])|]
  {
    var part := CutStored(files, n - 4);
    CutStep(Magic(), StoredAll(files), n, Concat(files[..w]), part);
  }

  lemma {:induction false} WholeLength(files: seq<Entry>)
    ensures StoredAll(files) == Concat(files) + LeBytes(0, 4)
  {
    if files != [] {
      WholeLength(files[1..]);
      Regroup(files[0].Stored(), Concat(files[1..]), LeBytes(0, 4));
    }
  }

  lemma {:induction false} LeavesMore(files: seq<Entry>, w: nat)
    requires w < |files|
    ensures |Concat(files[..w])| + |files[w].Stored()| <= |Concat(files)|
    decreases w
  {
    if w > 0 {
      LeavesMore(files[1..], w - 1);
      assert files[..w][1..] == files[1..][..w - 1];
      assert files[..w][0] == files[0];
    }
  }

  // A path of 512 bytes and more, or with "..", ends the restore with an error, behind the files
  // before it.
  lemma BadPathStops(bottle: FileMap, good: seq<Entry>, f: Entry, more: Bytes)
    requires AllAccepted(good) && 0 < |f.path| < TWO32
    requires |f.path| >= 512 || HasDotDot(UpToNul(f.path))
    ensures Restored(bottle, Magic() + Concat(good) + (f.Stored() + more))
         == (InvalidArgument, WriteAll(Base(bottle), AllNamed(good)))
  {
    var stream, at := Magic() + Concat(good) + (f.Stored() + more), 4 + |Concat(good)|;
    Parts(good, f.Stored() + more);
    RecordFirst(stream, at, f.Stored(), more);
    BadRecord(stream, at, f);
    ReadsNone(stream, at);
    Continues(bottle, stream, good, InvalidArgument);
  }

  lemma RecordFirst(stream: Bytes, at: nat, record: Bytes, more: Bytes)
    requires at <= |stream| && stream[at..] == record + more
    ensures Holds(stream, at, record)
  {
    assert stream[at..at + |record|] == stream[at..][..|record|];
  }

  lemma BadRecord(stream: Bytes, at: nat, f: Entry)
    requires Holds(stream, at, f.Stored()) && 0 < |f.path| < TWO32
    requires |f.path| >= 512 || HasDotDot(UpToNul(f.path))
    ensures ReadRecord(stream, at) == Broken
  {
    StoredHolds(stream, at, f);
    if |f.path| < 512 {
      PathRead(stream, at, f);
    } else {
      LongPath(stream, at, |f.path|);
    }
  }

  lemma LongPath(stream: Bytes, at: nat, n: u32)
    requires Holds(stream, at, LeBytes(n, 4)) && n >= 512
    ensures ReadRecord(stream, at) == Broken
  {
    Field32(stream, at, n);
  }
}
