// The on-disk shader cache: a 40-byte identity header, then appended records.
// Across sessions it is a map in which the first insert under a key wins.
module ShaderCache {
  import opened Status
  import opened Words

  const MAGIC: u64 := 0x0143_454C_5348_0D00
  const VERSION: byte := 1
  const HEADER_SIZE: nat := 40

  datatype Env = Env(gpu: u64, driver: u64, api: u32, flags: u32)
  {
    function Bytes(): (s: seq<byte>)
      ensures |s| == 24
    {
      LeBytes(gpu, 8) + LeBytes(driver, 8) + LeBytes(api, 4) + LeBytes(flags, 4)
    }

    // The flags are stored but not part of the identity.
    predicate SameIdentity(e: Env) {
      gpu == e.gpu && driver == e.driver && api == e.api
    }
  }

  datatype Record = Record(key: u64, blob: seq<byte>)
  {
    // The length field holds the low 32 bits of the blob length.
    function Bytes(): (s: seq<byte>)
      ensures |s| == 12 + |blob|
    {
      LeBytes(key, 8) + LeBytes(|blob|, 4) + blob
    }

    predicate Fits() { |blob| < TWO32 }
  }

  function MagicBytes(): (s: seq<byte>)
    ensures |s| == 8
  {
    LeBytes(MAGIC, 8)[7 := VERSION]
  }

  function Header(env: Env, count: nat): (s: seq<byte>)
    ensures |s| == HEADER_SIZE
  {
    MagicBytes() + env.Bytes() + LeBytes(count % TWO64, 8)
  }

  function Log(records: seq<Record>): (s: seq<byte>)
  {
    if records == [] then [] else records[0].Bytes() + Log(records[1..])
  }

  // ---- opening ----

  // read_env: a short read gives the all-zero identity.
  function ReadEnv(file: seq<byte>): Env {
    if |file| < 32 then Env(0, 0, 0, 0)
    else
      Env(Word(file, 8, 8) % TWO64, Word(file, 16, 8) % TWO64,
          Word(file, 24, 4) % TWO32, Word(file, 28, 4) % TWO32)
  }

  predicate Matches(file: seq<byte>, env: Env) {
    && |file| >= 8 && Word(file, 0, 8) == MAGIC && file[7] == VERSION
    && ReadEnv(file).SameIdentity(env)
  }

  // The count field; bytes missing from a short file keep the buffer's magic bytes.
  function ReadCount(file: seq<byte>): (c: u64)
    requires |file| >= 8
  {
    var got := if |file| >= 32 then file[32..Min(HEADER_SIZE, |file|)] else [];
    LeValue(got + file[|got|..8]) % TWO64
  }

  // The file and the entry count cellar_shadercache_open leaves.
  function Opened(file: Option<seq<byte>>, env: Env): (seq<byte>, u64) {
    if file.Some? && Matches(file.value, env) then (file.value, ReadCount(file.value))
    else (Header(env, 0), 0)
  }

  // Seeking past the end of a short file and writing there fills the gap with zeros.
  function Padded(file: seq<byte>): (s: seq<byte>)
    ensures |s| >= HEADER_SIZE
  {
    if |file| < HEADER_SIZE then file + seq(HEADER_SIZE - |file|, _ => 0) else file
  }

  // Overwriting bytes 32..39.
  function PatchCount(file: seq<byte>, count: u64): (s: seq<byte>)
  {
    var padded := Padded(file);
    padded[..32] + LeBytes(count, 8) + padded[HEADER_SIZE..]
  }

  // ---- scanning ----

  datatype Hit = Hit(at: nat, size: nat)

  // The payload of the first record under key, skipping by the stored sizes.
  function Find(file: seq<byte>, pos: nat, key: u64): (hit: Option<Hit>)
    ensures hit.Some? ==> hit.value.at <= |file|
    decreases |file| - pos
  {
    if pos + 12 > |file| then None
    else
      var size := Word(file, pos + 8, 4);
      if Word(file, pos, 8) == key then Some(Hit(pos + 12, size))
      else Find(file, pos + 12 + size, key)
  }

  // The bytes a lookup hands over: those of the blob the file holds, if it is not too large.
  function Delivered(file: seq<byte>, key: u64, cap: nat): (bytes: seq<byte>)
    ensures |bytes| <= cap
  {
    match Find(file, HEADER_SIZE, key)
    case None => []
    case Some(hit) =>
      if hit.size <= cap then file[hit.at..Min(hit.at + hit.size, |file|)] else []
  }

  function FirstUnder(records: seq<Record>, key: u64): Option<seq<byte>> {
    if records == [] then None
    else if records[0].key == key then Some(records[0].blob)
    else FirstUnder(records[1..], key)
  }

  lemma RecordFields(file: seq<byte>, pos: nat, r: Record)
    requires Holds(file, pos, r.Bytes())
    ensures Word(file, pos, 8) == r.key
    ensures Word(file, pos + 8, 4) == |r.blob| % TWO32
    ensures Holds(file, pos + 12, r.blob)
  {
    HoldsParts(file, pos, LeBytes(r.key, 8) + LeBytes(|r.blob|, 4), r.blob);
    HoldsParts(file, pos, LeBytes(r.key, 8), LeBytes(|r.blob|, 4));
    Field64(file, pos, r.key);
    Field32(file, pos + 8, |r.blob|);
  }

  // What a scan from pos must report when the records' first blob under a key is wanted.
  ghost predicate Reports(file: seq<byte>, pos: nat, key: u64, wanted: Option<seq<byte>>) {
    match wanted
    case None => Find(file, pos, key) == None
    case Some(blob) =>
      && Find(file, pos, key).Some?
      && Find(file, pos, key).value.size == |blob|
      && Holds(file, Find(file, pos, key).value.at, blob)
  }

  // The scan sees exactly the appended records: it finds the first blob under the
  // key, never bytes inside a blob, and nothing when no record has the key.
  lemma {:induction false} FindIsFirstUnder(file: seq<byte>, pos: nat, records: seq<Record>, key: u64)
    requires forall r <- records :: r.Fits()
    requires Holds(file, pos, Log(records)) && pos + |Log(records)| == |file|
    ensures Reports(file, pos, key, FirstUnder(records, key))
    decreases |records|
  {
    if records == [] {
      assert pos == |file|;
    } else {
      var r := records[0];
      HoldsParts(file, pos, r.Bytes(), Log(records[1..]));
      FindStep(file, pos, r, key);
      FindIsFirstUnder(file, pos + |r.Bytes()|, records[1..], key);
    }
  }

  lemma FindStep(file: seq<byte>, pos: nat, r: Record, key: u64)
    requires Holds(file, pos, r.Bytes()) && r.Fits()
    ensures Holds(file, pos + 12, r.blob)
    ensures Find(file, pos, key) ==
      if r.key == key then Some(Hit(pos + 12, |r.blob|)) else Find(file, pos + 12 + |r.blob|, key)
  {
    RecordFields(file, pos, r);
    assert Word(file, pos + 8, 4) == |r.blob|;
  }

  // A blob is found again with its true size exactly when its length fits 32 bits.
  lemma StoredSizeIff(file: seq<byte>, pos: nat, r: Record)
    requires Holds(file, pos, r.Bytes())
    ensures var hit := Find(file, pos, r.key);
      hit.Some? && (hit.value.size == |r.blob| <==> r.Fits())
  {
    RecordFields(file, pos, r);
    assert Word(file, pos, 8) == r.key && Word(file, pos + 8, 4) == |r.blob| % TWO32;
  }

  // ---- runs of sessions ----

  datatype Session = Session(env: Env, inserts: seq<Record>)

  function RunSession(file: Option<seq<byte>>, s: Session): seq<byte> {
    var (base, count) := Opened(file, s.env);
    Grown(base, count, s.inserts)
  }

  // An opened file and count after appending records and closing.
  function Grown(base: seq<byte>, count: u64, inserts: seq<Record>): seq<byte> {
    PatchCount(base + Log(inserts), (count + |inserts|) % TWO64)
  }

  // The file after some open / insert* / close sessions, starting without one.
  function Run(sessions: seq<Session>): Option<seq<byte>> {
    if sessions == [] then None
    else Some(RunSession(Run(sessions[..|sessions| - 1]), sessions[|sessions| - 1]))
  }

  // The same graphics card, driver and API; the flags may differ.
  predicate Agree(a: Env, b: Env) {
    a.gpu == b.gpu && a.driver == b.driver && a.api == b.api
  }

  // What was inserted since the last session with another card, driver or API.
  function Surviving(sessions: seq<Session>): seq<Record> {
    if sessions == [] then []
    else
      var last := sessions[|sessions| - 1];
      var before := sessions[..|sessions| - 1];
      if before != [] && Agree(before[|before| - 1].env, last.env)
      then Surviving(before) + last.inserts
      else last.inserts
  }

  lemma {:induction false} LogAppend(a: seq<Record>, b: seq<Record>)
    ensures Log(a + b) == Log(a) + Log(b)
  {
    if a == [] {
      assert a + b == b;
    } else {
      LogAppend(a[1..], b);
      assert (a + b)[1..] == a[1..] + b;
      Assoc(a[0].Bytes(), Log(a[1..]), Log(b));
    }
  }

  lemma FirstByte(a: byte, rest: seq<byte>)
    ensures LeValue([a] + rest) == a + 0x100 * LeValue(rest)
  {
    assert ([a] + rest)[1..] == rest;
  }

  lemma FourBytes(a: byte, b: byte, c: byte, d: byte, rest: seq<byte>)
    ensures LeValue([a, b, c, d] + rest) == a + 0x100 * b + 0x1_0000 * c + 0x100_0000 * d + TWO32 * LeValue(rest)
  {
    FirstByte(d, rest);
    FirstByte(c, [d] + rest);
    FirstByte(b, [c] + ([d] + rest));
    FirstByte(a, [b] + ([c] + ([d] + rest)));
    assert [a] + ([b] + ([c] + ([d] + rest))) == [a, b, c, d] + rest;
  }

  lemma MagicValue(magic: seq<byte>)
    requires magic == [0x00, 0x0D, 0x48, 0x53] + [0x4C, 0x45, 0x43, 0x01]
    ensures LeValue(magic) == MAGIC
  {
    var high := [0x4C, 0x45, 0x43, 0x01];
    FourBytes(0x4C, 0x45, 0x43, 0x01, []);
    FourBytes(0x00, 0x0D, 0x48, 0x53, high);
    assert high + [] == high;
  }

  lemma MagicIsMagic()
    ensures LeValue(MagicBytes()) == MAGIC && MagicBytes()[7] == VERSION
    ensures MagicBytes() == LeBytes(MAGIC, 8)
  {
    var magic := [0x00, 0x0D, 0x48, 0x53] + [0x4C, 0x45, 0x43, 0x01];
    MagicValue(magic);
    LeBytesOfValue(magic);
    assert |magic| == 8 && LeBytes(MAGIC, 8) == magic;
    assert magic[7] == VERSION && magic[7 := VERSION] == magic;
  }

  // A whole cache file: the identity header with the record count, then exactly the records.
  ghost predicate IsLogFile(file: seq<byte>, env: Env, records: seq<Record>) {
    && |file| == HEADER_SIZE + |Log(records)|
    && Holds(file, 0, MagicBytes()) && Holds(file, 8, env.Bytes())
    && Holds(file, 32, LeBytes(|records| % TWO64, 8)) && Holds(file, HEADER_SIZE, Log(records))
  }

  lemma HeaderIsLogFile(env: Env)
    ensures IsLogFile(Header(env, 0), env, [])
  {
    var file := Header(env, 0);
    assert Holds(file, 0, file);
    HoldsParts(file, 0, MagicBytes() + env.Bytes(), LeBytes(0 % TWO64, 8));
    HoldsParts(file, 0, MagicBytes(), env.Bytes());
  }

  lemma EnvParts(file: seq<byte>, g: seq<byte>, d: seq<byte>, a: seq<byte>, f: seq<byte>)
    requires |g| == |d| == 8 && |a| == |f| == 4 && Holds(file, 8, g + d + a + f)
    ensures Holds(file, 8, g) && Holds(file, 16, d) && Holds(file, 24, a) && Holds(file, 28, f)
  {
    HoldsParts(file, 8, g + d + a, f);
    HoldsParts(file, 8, g + d, a);
    HoldsParts(file, 8, g, d);
  }

  lemma EnvHolds(file: seq<byte>, env: Env)
    requires Holds(file, 8, env.Bytes())
    ensures Holds(file, 8, LeBytes(env.gpu, 8)) && Holds(file, 16, LeBytes(env.driver, 8))
    ensures Holds(file, 24, LeBytes(env.api, 4)) && Holds(file, 28, LeBytes(env.flags, 4))
  {
    EnvParts(file, LeBytes(env.gpu, 8), LeBytes(env.driver, 8), LeBytes(env.api, 4), LeBytes(env.flags, 4));
  }

  lemma IdsRead(file: seq<byte>, env: Env)
    requires Holds(file, 8, env.Bytes())
    ensures 24 <= |file| && Word(file, 8, 8) == env.gpu && Word(file, 16, 8) == env.driver
  {
    EnvHolds(file, env);
    Field64(file, 8, env.gpu);
    Field64(file, 16, env.driver);
  }

  lemma FlagsRead(file: seq<byte>, env: Env)
    requires Holds(file, 8, env.Bytes())
    ensures 32 <= |file| && Word(file, 24, 4) == env.api && Word(file, 28, 4) == env.flags
  {
    EnvHolds(file, env);
    Field32(file, 24, env.api);
    Field32(file, 28, env.flags);
  }

  lemma FieldsAreEnv(file: seq<byte>, env: Env)
    requires 32 <= |file|
    requires Word(file, 8, 8) == env.gpu && Word(file, 16, 8) == env.driver
    requires Word(file, 24, 4) == env.api && Word(file, 28, 4) == env.flags
    ensures ReadEnv(file) == env
  {
  }

  lemma EnvFields(file: seq<byte>, env: Env)
    requires Holds(file, 8, env.Bytes())
    ensures ReadEnv(file) == env
  {
    IdsRead(file, env);
    FlagsRead(file, env);
    FieldsAreEnv(file, env);
  }

  lemma OpenOnLogFile(file: seq<byte>, was: Env, records: seq<Record>, env: Env)
    requires IsLogFile(file, was, records)
    ensures Matches(file, env) <==> was.gpu == env.gpu && was.driver == env.driver && was.api == env.api
    ensures ReadCount(file) == |records| % TWO64
  {
    EnvFields(file, was);
    CountIsRead(file, |records| % TWO64);
    MagicIsRead(file);
  }

  lemma CountIsRead(file: seq<byte>, count: u64)
    requires Holds(file, 32, LeBytes(count, 8))
    ensures ReadCount(file) == count
  {
    var c := LeBytes(count, 8);
    assert c + file[8..8] == c;
    Le64RoundTrip(count);
  }

  lemma MagicIsRead(file: seq<byte>)
    requires Holds(file, 0, MagicBytes())
    ensures Word(file, 0, 8) == MAGIC && file[7] == VERSION
  {
    MagicIsMagic();
    SpelledAtFront(file, MagicBytes());
  }

  lemma SpelledAtFront(file: seq<byte>, s: seq<byte>)
    requires |s| == 8 && Holds(file, 0, s)
    ensures Word(file, 0, 8) == LeValue(s) && file[7] == s[7]
  {
    WordIs(file, 0, 8);
    assert file[0..8][7] == file[7];
  }

  // Appending records and patching the count leaves a whole cache file.
  lemma AppendedLogFile(file: seq<byte>, env: Env, kept: seq<Record>, added: seq<Record>, count: u64)
    requires IsLogFile(file, env, kept) && count == |kept + added| % TWO64
    ensures IsLogFile(PatchCount(file + Log(added), count), env, kept + added)
  {
    LogAppend(kept, added);
    HoldsExtended(file, 0, MagicBytes(), Log(added));
    HoldsExtended(file, 8, env.Bytes(), Log(added));
    HoldsExtended(file, HEADER_SIZE, Log(kept), Log(added));
    PatchKeeps(file + Log(added), count, 0, MagicBytes());
    PatchKeeps(file + Log(added), count, 8, env.Bytes());
    PatchKeeps(file + Log(added), count, HEADER_SIZE, Log(kept) + Log(added));
    PatchSets(file + Log(added), count);
  }

  lemma PatchSets(file: seq<byte>, count: u64)
    requires |file| >= HEADER_SIZE
    ensures |PatchCount(file, count)| == |file|
    ensures Holds(PatchCount(file, count), 32, LeBytes(count, 8))
  {
    HoldsInside(file[..32], LeBytes(count, 8), file[HEADER_SIZE..]);
  }

  lemma PatchKeeps(file: seq<byte>, count: u64, pos: nat, s: seq<byte>)
    requires |file| >= HEADER_SIZE && Holds(file, pos, s)
    requires pos + |s| <= 32 || HEADER_SIZE <= pos
    ensures Holds(PatchCount(file, count), pos, s)
  {
    var patched := PatchCount(file, count);
    forall i | pos <= i < pos + |s|
      ensures patched[i] == file[i]
    {
    }
    SameBytes(file, patched, pos, s);
  }

  lemma SameBytes(a: seq<byte>, b: seq<byte>, pos: nat, s: seq<byte>)
    requires Holds(a, pos, s) && pos + |s| <= |b|
    requires forall i | pos <= i < pos + |s| :: b[i] == a[i]
    ensures Holds(b, pos, s)
  {
    assert b[pos..pos + |s|] == a[pos..pos + |s|];
  }

  lemma CountsAdd(a: nat, b: nat)
    ensures (a % TWO64 + b) % TWO64 == (a + b) % TWO64
  {
  }

  // After any run the file is a header with the last identity and the number of records,
  // followed by exactly the surviving records.
  lemma {:induction false} FileIsLog(sessions: seq<Session>) returns (env: Env)
    requires sessions != []
    ensures Agree(env, sessions[|sessions| - 1].env)
    ensures IsLogFile(Run(sessions).value, env, Surviving(sessions))
  {
    var last := sessions[|sessions| - 1];
    var before := sessions[..|sessions| - 1];
    if before == [] {
      FirstSession(last);
      return last.env;
    }
    var prev := FileIsLog(before);
    env := OneMoreSession(Run(before).value, prev, Surviving(before), last);
  }

  lemma FirstSession(s: Session)
    ensures IsLogFile(RunSession(None, s), s.env, s.inserts)
  {
    HeaderIsLogFile(s.env);
    SessionAppends(Header(s.env, 0), s.env, [], 0, s.inserts);
    assert [] + s.inserts == s.inserts;
  }

  // One session keeps or drops the records it finds.
  lemma OneMoreSession(file: seq<byte>, was: Env, kept: seq<Record>, s: Session) returns (env: Env)
    requires IsLogFile(file, was, kept)
    ensures Agree(env, s.env)
    ensures IsLogFile(RunSession(Some(file), s), env,
                      if Agree(was, s.env) then kept + s.inserts else s.inserts)
  {
    OpenOnLogFile(file, was, kept, s.env);
    if Agree(was, s.env) {
      SessionAppends(file, was, kept, |kept| % TWO64, s.inserts);
      return was;
    }
    FirstSession(s);
    return s.env;
  }

  lemma RecordCount(kept: seq<Record>, added: seq<Record>, count: u64, total: u64)
    requires count == |kept| % TWO64 && total == (count + |added|) % TWO64
    ensures total == |kept + added| % TWO64
  {
    CountsAdd(|kept|, |added|);
  }

  // A session that opens on a log of kept records leaves the log of those and its inserts.
  lemma SessionAppends(base: seq<byte>, env: Env, kept: seq<Record>, count: u64, inserts: seq<Record>)
    requires IsLogFile(base, env, kept) && count == |kept| % TWO64
    ensures IsLogFile(Grown(base, count, inserts), env, kept + inserts)
  {
    var total: u64 := (count + |inserts|) % TWO64;
    RecordCount(kept, inserts, count, total);
    AppendedLogFile(base, env, kept, inserts, total);
  }

  // Opening after any run leaves a log of what then survives.
  lemma SurvivingReopen(sessions: seq<Session>, e: Env)
    ensures Surviving(sessions + [Session(e, [])]) ==
      if sessions != [] && Agree(sessions[|sessions| - 1].env, e) then Surviving(sessions) else []
  {
    assert (sessions + [Session(e, [])])[..|sessions|] == sessions;
    assert Surviving(sessions) + [] == Surviving(sessions);
  }

  lemma OpenedIsLog(sessions: seq<Session>, e: Env) returns (env: Env)
    ensures Agree(env, e)
    ensures IsLogFile(Opened(Run(sessions), e).0, env, Surviving(sessions + [Session(e, [])]))
  {
    SurvivingReopen(sessions, e);
    if sessions == [] {
      HeaderIsLogFile(e);
      return e;
    }
    var was := FileIsLog(sessions);
    env := OpenedLog(Run(sessions).value, was, Surviving(sessions), e);
  }

  lemma OpenedLog(file: seq<byte>, was: Env, kept: seq<Record>, e: Env) returns (env: Env)
    requires IsLogFile(file, was, kept)
    ensures Agree(env, e)
    ensures IsLogFile(Opened(Some(file), e).0, env, if Agree(was, e) then kept else [])
  {
    OpenOnLogFile(file, was, kept, e);
    HeaderIsLogFile(e);
    return if Agree(was, e) then was else e;
  }

  // Under another card, driver or API nothing of what was inserted is found again.
  lemma OtherIdentityMisses(sessions: seq<Session>, e: Env, key: u64)
    requires sessions != []
    requires var was := sessions[|sessions| - 1].env;
      was.gpu != e.gpu || was.driver != e.driver || was.api != e.api
    ensures Find(Opened(Run(sessions), e).0, HEADER_SIZE, key) == None
  {
    SurvivingReopen(sessions, e);
    var env := OpenedIsLog(sessions, e);
    FindIsFirstUnder(Opened(Run(sessions), e).0, HEADER_SIZE, [], key);
  }

  // A lookup in the cache reopened after any run of sessions finds the first blob inserted
  // under the key since the identity last changed, and misses when there is none.
  lemma LookupAfterReopen(sessions: seq<Session>, e: Env, key: u64)
    requires forall s <- sessions, r <- s.inserts :: r.Fits()
    ensures Reports(Opened(Run(sessions), e).0, HEADER_SIZE, key,
                    FirstUnder(Surviving(sessions + [Session(e, [])]), key))
  {
    var all := sessions + [Session(e, [])];
    var env := OpenedIsLog(sessions, e);
    SurvivorsInserted(all);
    FindIsFirstUnder(Opened(Run(sessions), e).0, HEADER_SIZE, Surviving(all), key);
  }

  lemma {:induction false} SurvivorsInserted(sessions: seq<Session>)
    requires forall s <- sessions, r <- s.inserts :: r.Fits()
    ensures forall r <- Surviving(sessions) :: r.Fits()
  {
    if sessions != [] {
      SurvivorsInserted(sessions[..|sessions| - 1]);
      assert sessions[|sessions| - 1] in sessions;
    }
  }

  // ---- any file ----

  // The number some bytes of a file spell.
  function FieldAt(file: seq<byte>, at: nat, n: nat): nat
    requires at + n <= |file|
  {
    LeValue(file[at..at + n])
  }

  // Which files opening keeps, whatever is in them: those that start with the magic and whose
  // identity agrees, which is zero where they are too short to hold one.
  lemma MatchesIff(file: seq<byte>, env: Env)
    ensures Matches(file, env) <==>
      && |file| >= 8 && file[..8] == [0x00, 0x0D, 0x48, 0x53, 0x4C, 0x45, 0x43, 0x01]
      && if |file| >= 32
         then FieldAt(file, 8, 8) == env.gpu && FieldAt(file, 16, 8) == env.driver && FieldAt(file, 24, 4) == env.api
         else env.gpu == 0 && env.driver == 0 && env.api == 0
  {
    if |file| >= 8 {
      MagicBytesIff(file[..8]);
      WordIs(file, 0, 8);
      assert file[0..8] == file[..8] && file[..8][7] == file[7];
    }
    if |file| >= 32 {
      FieldIs(file, 8, 8);
      FieldIs(file, 16, 8);
      FieldIs(file, 24, 4);
    }
  }

  lemma FieldIs(file: seq<byte>, at: nat, n: nat)
    requires at + n <= |file| && (n == 4 || n == 8)
    ensures Word(file, at, n) == FieldAt(file, at, n)
    ensures FieldAt(file, at, n) < if n == 4 then TWO32 else TWO64
  {
    WordIs(file, at, n);
    Pow256Constants();
  }

  lemma MagicBytesIff(s: seq<byte>)
    requires |s| == 8
    ensures LeValue(s) == MAGIC && s[7] == VERSION <==> s == [0x00, 0x0D, 0x48, 0x53, 0x4C, 0x45, 0x43, 0x01]
  {
    var magic := [0x00, 0x0D, 0x48, 0x53] + [0x4C, 0x45, 0x43, 0x01];
    assert magic == [0x00, 0x0D, 0x48, 0x53, 0x4C, 0x45, 0x43, 0x01];
    MagicValue(magic);
    LeBytesOfValue(magic);
    LeBytesOfValue(s);
  }

  // The count a file is opened with: its count field, or what a short read leaves of it in front
  // of the magic's bytes.
  lemma CountIs(file: seq<byte>)
    requires |file| >= 8
    ensures |file| >= 40 ==> ReadCount(file) == FieldAt(file, 32, 8)
    ensures |file| <= 32 ==> ReadCount(file) == FieldAt(file, 0, 8)
    ensures 32 < |file| < 40 ==> ReadCount(file) == LeValue(file[32..] + file[|file| - 32..8])
  {
    if |file| >= 40 {
      FieldIs(file, 32, 8);
      assert file[32..40] + file[8..8] == file[32..40];
    } else if |file| <= 32 {
      FieldIs(file, 0, 8);
      assert [] + file[0..8] == file[0..8];
      assert |file| == 32 ==> file[32..32] == [];
    } else {
      var c := file[32..] + file[|file| - 32..8];
      LeBytesOfValue(c);
      Pow256Constants();
      assert file[32..|file|] == file[32..];
    }
  }

  // Closing writes the count over bytes 32 to 39 and changes no other byte; a short file is
  // lengthened with zeros.
  lemma PatchedBytes(file: seq<byte>, count: u64)
    ensures |PatchCount(file, count)| == Max(|file|, 40)
    ensures PatchCount(file, count)[32..40] == LeBytes(count, 8)
    ensures forall i | 0 <= i < |PatchCount(file, count)| && !(32 <= i < 40) ::
      PatchCount(file, count)[i] == if i < |file| then file[i] else 0
  {
  }

  // ---- the cache object ----

  class Cache {
    var disk: Option<seq<byte>>  // the file, kept between sessions
    var pending: seq<byte>       // appended, but still in the stdio buffer
    var appending: bool          // fp is open
    var valid: bool
    var env: Env
    var entries: u64

    constructor (file: Option<seq<byte>>)
      ensures disk == file && !appending && !valid && pending == []
    {
      disk, pending, appending, valid := file, [], false, false;
      env, entries := Env(0, 0, 0, 0), 0;
    }

    method Open(env: Env) returns (status: Status)
      requires !appending && pending == []
      modifies this
      ensures status == Ok && valid && appending && pending == []
      ensures this.env == env
      ensures disk == Some(Opened(old(disk), env).0) && entries == Opened(old(disk), env).1
    {
      this.env, entries := env, 0;
      var matched := false;
      if disk.Some? {
        var file := disk.value;
        if |file| >= 8 {
          if Word(file, 0, 8) == MAGIC && file[7] == VERSION {
            matched := ReadEnv(file).SameIdentity(env);
            entries := ReadCount(file);
          }
        }
      }
      if !matched {
        disk := Some(Header(env, 0));
        entries := 0;
      }
      valid, appending := true, true;
      return Ok;
    }

    method Insert(key: u64, blob: seq<byte>) returns (status: Status)
      modifies this`pending, this`entries
      ensures status == if old(valid && appending) then Ok else InvalidArgument
      ensures status == Ok ==>
        pending == old(pending) + Record(key, blob).Bytes() && entries == (old(entries) + 1) % TWO64
      ensures status != Ok ==> pending == old(pending) && entries == old(entries)
    {
      if !valid || !appending {
        return InvalidArgument;
      }
      pending := pending + LeBytes(key, 8) + LeBytes(|blob|, 4) + blob;
      entries := (entries + 1) % TWO64;
      return Ok;
    }

    // The stdio buffer may write out any part of what is pending at any time.
    method Spill(n: nat)
      requires disk.Some? && n <= |pending|
      modifies this`disk, this`pending
      ensures disk.Some? && disk.value + pending == old(disk.value + pending)
      ensures disk.value == old(disk.value) + old(pending)[..n]
    {
      disk := Some(disk.value + pending[..n]);
      pending := pending[n..];
    }

    // Flushes, then rewrites the count field of the header.
    method Close() returns (status: Status)
      requires appending ==> disk.Some?
      modifies this
      ensures status == Ok && !valid && !appending
      ensures old(appending) ==>
        && disk == Some(PatchCount(old(disk.value + pending), old(entries))) && pending == []
      ensures !old(appending) ==> disk == old(disk) && pending == old(pending)
    {
      if appending {
        var file := disk.value + pending;
        pending, appending := [], false;
        var padded := Padded(file);
        disk := Some(padded[..32] + LeBytes(entries, 8) + padded[HEADER_SIZE..]);
      }
      valid := false;
      return Ok;
    }

    // Returns the stored size, copying the blob out when it fits; 0 is a miss. A file
    // that ends inside the blob still reports the stored size, and hands over what is there.
    method Lookup(key: u64, blob: array?<byte>, cap: nat) returns (found: nat)
      requires blob != null ==> cap <= blob.Length
      modifies blob
      ensures found == (if !valid || disk.None? then 0
                        else match Find(disk.value, HEADER_SIZE, key)
                             case None => 0
                             case Some(hit) => hit.size)
      ensures blob != null ==>
        var bytes := if !valid || disk.None? then [] else Delivered(disk.value, key, cap);
        blob[..] == bytes + old(blob[..])[|bytes|..]
    {
      if !valid || disk.None? {
        return 0;
      }
      var file := disk.value;
      var hit := Scan(file, key);
      if hit.None? {
        return 0;
      }
      var at, size := hit.value.at, hit.value.size;
      if blob != null && size <= cap {
        FRead(file, at, blob, Min(size, |file| - at));
      }
      return size;
    }

    // The scan of the log, up to the first record under the key.
    method Scan(file: seq<byte>, key: u64) returns (hit: Option<Hit>)
      ensures hit == Find(file, HEADER_SIZE, key)
    {
      var pos: nat := HEADER_SIZE;
      while pos + 12 <= |file|
        invariant Find(file, HEADER_SIZE, key) == Find(file, pos, key)
        decreases |file| - pos
      {
        var size := Word(file, pos + 8, 4);
        if Word(file, pos, 8) == key {
          return Some(Hit(pos + 12, size));
        }
        pos := pos + 12 + size;
      }
      return None;
    }

    // fread of n bytes that are there.
    method FRead(file: seq<byte>, at: nat, dst: array<byte>, n: nat)
      requires at + n <= |file| && n <= dst.Length
      modifies dst
      ensures dst[..] == file[at..at + n] + old(dst[..])[n..]
    {
      for i := 0 to n
        invariant forall j | 0 <= j < i :: dst[j] == file[at + j]
        invariant forall j | i <= j < dst.Length :: dst[j] == old(dst[j])
      {
        dst[i] := file[at + i];
      }
    }
  }

  // One whole session on the object, with any spilling in between, is RunSession.
  method UseSession(cache: Cache, s: Session, spills: seq<nat>)
    requires !cache.appending && cache.pending == []
    modifies cache
    ensures !cache.appending && cache.pending == []
    ensures cache.disk == Some(RunSession(old(cache.disk), s))
  {
    ghost var start := Opened(cache.disk, s.env);
    var status := cache.Open(s.env);
    assert cache.disk.value + [] == cache.disk.value;
    InsertAll(cache, s.inserts, spills);
    assert cache.disk.value + cache.pending == start.0 + Log(s.inserts);
    status := cache.Close();
    assert cache.disk == Some(Grown(start.0, start.1, s.inserts));
  }

  // What a scan reports is what a lookup returns and hands over.
  lemma DeliversReported(file: seq<byte>, key: u64, cap: nat, wanted: Option<seq<byte>>)
    requires Reports(file, HEADER_SIZE, key, wanted)
    ensures Delivered(file, key, cap) ==
      match wanted
      case None => []
      case Some(blob) => if |blob| <= cap then blob else []
  {
  }

  // Reopening a cache after any sessions and looking a key up: the size, and the blob itself
  // when the buffer holds it.
  method ReopenAndLookup(cache: Cache, ghost sessions: seq<Session>, e: Env, key: u64,
                         blob: array<byte>, cap: nat)
    returns (found: nat)
    requires !cache.appending && cache.pending == [] && cache.disk == Run(sessions)
    requires forall s <- sessions, r <- s.inserts :: r.Fits()
    requires cap <= blob.Length
    modifies cache, blob
    ensures match FirstUnder(Surviving(sessions + [Session(e, [])]), key)
      case None => found == 0 && blob[..] == old(blob[..])
      case Some(b) =>
        found == |b| && blob[..] == if |b| <= cap then b + old(blob[..])[|b|..] else old(blob[..])
  {
    ghost var wanted := FirstUnder(Surviving(sessions + [Session(e, [])]), key);
    LookupAfterReopen(sessions, e, key);
    var status := cache.Open(e);
    DeliversReported(cache.disk.value, key, cap, wanted);
    found := cache.Lookup(key, blob, cap);
    assert [] + old(blob[..])[0..] == old(blob[..]);
  }

  method InsertAll(cache: Cache, inserts: seq<Record>, spills: seq<nat>)
    requires cache.valid && cache.appending && cache.disk.Some?
    modifies cache`disk, cache`pending, cache`entries
    ensures cache.disk.Some?
    ensures cache.disk.value + cache.pending == old(cache.disk.value + cache.pending) + Log(inserts)
    ensures cache.entries == (old(cache.entries) + |inserts|) % TWO64
  {
    ghost var base := cache.disk.value + cache.pending;
    assert base + [] == base;
    for i := 0 to |inserts|
      invariant cache.disk.Some? && cache.disk.value + cache.pending == base + Log(inserts[..i])
      invariant cache.entries == (old(cache.entries) + i) % TWO64
    {
      LogOneMore(inserts, i, base, cache.disk.value, cache.pending);
      var status := cache.Insert(inserts[i].key, inserts[i].blob);
      if i < |spills| {
        cache.Spill(Min(spills[i], |cache.pending|));
      }
      CountsAdd(old(cache.entries) + i, 1);
    }
    assert inserts[..|inserts|] == inserts;
  }

  lemma LogOneMore(inserts: seq<Record>, i: nat, base: seq<byte>, disk: seq<byte>, pending: seq<byte>)
    requires i < |inserts| && disk + pending == base + Log(inserts[..i])
    ensures disk + (pending + inserts[i].Bytes()) == base + Log(inserts[..i + 1])
  {
    var r := inserts[i];
    LogAppend(inserts[..i], [r]);
    assert Log([r]) == r.Bytes() + Log([]);
    assert inserts[..i + 1] == inserts[..i] + [r];
    Assoc(disk, pending, r.Bytes());
    Assoc(base, Log(inserts[..i]), r.Bytes());
  }

  lemma Assoc(a: seq<byte>, b: seq<byte>, c: seq<byte>)
    ensures a + b + c == a + (b + c)
    ensures c + [] == c
  {
  }
}
