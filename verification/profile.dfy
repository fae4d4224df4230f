// The compatibility profile: its printer, its line parser, and when the two are inverse.
module Profile {
  import opened Status
  import opened Text
  import opened Decimal
  import opened Words

  const LINE_BUFFER: nat := 768

  datatype WinMode = Win7 | Win81 | Win10 | Win11
  datatype Trust = Local | Official | Community | Experimental

  datatype Field =
    | AppName | Label | Runner | Architecture | WindowsVersion | GfxBackend | AudioBackend
    | Runtime | Dependencies | DllOverrides | Resolution | VirtualDesktop | LaunchExecutable
    | LaunchArgs | TrustLevel | Source | ExeHash | Version
  {
    predicate IsText() {
      !(WindowsVersion? || VirtualDesktop? || TrustLevel? || Version?)
    }
  }

  // The order profile_yaml_write prints in.
  function FieldOrder(): seq<Field> {
    [AppName, Label, Runner, Architecture, WindowsVersion, GfxBackend, AudioBackend,
     Runtime, Dependencies, DllOverrides, Resolution, VirtualDesktop, LaunchExecutable,
     LaunchArgs, TrustLevel, Source, ExeHash, Version]
  }

  function Key(f: Field): string {
    match f
    case AppName => "name"
    case Label => "label"
    case Runner => "runner"
    case Architecture => "architecture"
    case WindowsVersion => "windows_version"
    case GfxBackend => "graphics.backend"
    case AudioBackend => "audio.backend"
    case Runtime => "runtime"
    case Dependencies => "dependencies"
    case DllOverrides => "dll_overrides"
    case Resolution => "windows.resolution"
    case VirtualDesktop => "windows.virtual_desktop"
    case LaunchExecutable => "launch.executable"
    case LaunchArgs => "launch.arguments"
    case TrustLevel => "trust"
    case Source => "source"
    case ExeHash => "exe_hash"
    case Version => "version"
  }

  // The size of the field's character array.
  function Capacity(f: Field): (c: nat)
    ensures c <= 512
    ensures f.IsText() ==> c > 0
  {
    match f
    case AppName => 64
    case Label => 64
    case Runner => 64
    case Architecture => 16
    case GfxBackend => 32
    case AudioBackend => 32
    case Runtime => 128
    case Dependencies => 256
    case DllOverrides => 512
    case Resolution => 32
    case LaunchExecutable => 512
    case LaunchArgs => 256
    case Source => 192
    case ExeHash => 40
    case _ => 0
  }

  // The character arrays, by field, and the four other members.
  datatype Profile = Profile(
    texts: map<Field, string>, mode: WinMode, virtualDesktop: i32, trust: Trust, version: u32)
  {
    ghost predicate Complete() {
      forall f: Field | f.IsText() :: f in texts
    }

    // A value of the C struct: every array holds a NUL-free string that fits it.
    ghost predicate IsStruct() {
      && (forall f: Field :: f in texts <==> f.IsText())
      && (forall f <- texts :: |texts[f]| < Capacity(f) && '\0' !in texts[f])
    }
  }

  function Zeroed(): Profile {
    Profile(map f: Field | f in FieldOrder() && f.IsText() :: "", Win7, 0, Local, 0)
  }

  // ---- printing ----

  function ModeName(m: WinMode): string {
    match m
    case Win7 => "win7"
    case Win81 => "win81"
    case Win11 => "win11"
    case Win10 => "win10"
  }

  function TrustName(t: Trust): string {
    match t
    case Official => "official"
    case Community => "community"
    case Experimental => "experimental"
    case Local => "local"
  }

  function Printed(p: Profile, f: Field): string
    requires p.Complete()
  {
    assert AppName.IsText() && Label.IsText();
    match f
    case WindowsVersion => ModeName(p.mode)
    case VirtualDesktop => DecInt(p.virtualDesktop)
    case TrustLevel => TrustName(p.trust)
    case Version => Dec(p.version)
    case AppName => if p.texts[AppName] != "" then p.texts[AppName] else p.texts[Label]
    case _ => p.texts[f]
  }

  function FieldLine(p: Profile, f: Field): string
    requires p.Complete()
  {
    Key(f) + ":" + (" " + Printed(p, f))
  }

  function FieldLines(p: Profile, fields: seq<Field>): (ls: seq<string>)
    requires p.Complete()
    ensures |ls| == |fields|
    ensures forall i | 0 <= i < |fields| :: ls[i] == FieldLine(p, fields[i])
  {
    if fields == [] then [] else [FieldLine(p, fields[0])] + FieldLines(p, fields[1..])
  }

  const BANNER := "# Winaltor compatibility profile"

  function Written(p: Profile): string
    requires p.Complete()
  {
    Unlines([BANNER] + FieldLines(p, FieldOrder()))
  }

  // ---- parsing ----

  function ModeOf(s: string): WinMode {
    var t := Fold(s);
    if s == "" then Win10
    else if t == "win7" || t == "windows 7" then Win7
    else if t == "win81" || t == "windows 8.1" then Win81
    else if t == "win11" || t == "windows 11" then Win11
    else Win10
  }

  function TrustOf(s: string): Trust {
    var t := Fold(s);
    if t == "official" then Official
    else if t == "community" then Community
    else if t == "experimental" then Experimental
    else Local
  }

  function FieldOf(key: string): Option<Field> {
    if key == "name" then Some(AppName)
    else if key == "label" then Some(Label)
    else if key == "runner" then Some(Runner)
    else if key == "architecture" then Some(Architecture)
    else if key == "windows_version" then Some(WindowsVersion)
    else if key == "graphics.backend" then Some(GfxBackend)
    else if key == "audio.backend" then Some(AudioBackend)
    else if key == "runtime" then Some(Runtime)
    else if key == "dependencies" then Some(Dependencies)
    else FieldOfRest(key)
  }

  function FieldOfRest(key: string): Option<Field> {
    if key == "dll_overrides" then Some(DllOverrides)
    else if key == "windows.resolution" then Some(Resolution)
    else if key == "windows.virtual_desktop" then Some(VirtualDesktop)
    else if key == "launch.executable" then Some(LaunchExecutable)
    else if key == "launch.arguments" then Some(LaunchArgs)
    else if key == "trust" then Some(TrustLevel)
    else if key == "source" then Some(Source)
    else if key == "exe_hash" then Some(ExeHash)
    else if key == "version" then Some(Version)
    else None
  }

  predicate Blank(c: char) { c == ' ' || c == '\t' }

  function SkipBlanks(s: string): (r: string)
    ensures r != "" ==> !Blank(r[0])
    ensures forall c <- r :: c in s
    decreases |s|
  {
    if s != "" && Blank(s[0]) then SkipBlanks(s[1..]) else s
  }

  function Assign(p: Profile, f: Field, v: string): Profile {
    if f.IsText() then p.(texts := p.texts[f := Clip(v, Capacity(f))])
    else if f.WindowsVersion? then p.(mode := ModeOf(v))
    else if f.VirtualDesktop? then p.(virtualDesktop := Atoi(v))
    else if f.TrustLevel? then p.(trust := TrustOf(v))
    else p.(version := StrToUL(v, 0) % 0x1_0000_0000)
  }

  function ParseLine(p: Profile, whole: string): Profile {
    var line := Clip(whole, LINE_BUFFER);
    var i := IndexOf(line, ':');
    if line == "" || line[0] == '#' || i == |line| then p
    else
      var f := FieldOf(line[..i]);
      if f.None? then p else Assign(p, f.value, SkipBlanks(line[i + 1..]))
  }

  function ParseLines(p: Profile, lines: seq<string>): Profile
    decreases |lines|
  {
    if lines == [] then p else ParseLines(ParseLine(p, lines[0]), lines[1..])
  }

  function Parsed(text: string): Profile {
    ParseLines(Zeroed(), Lines(text))
  }

  // profile_parse
  method ParseProfile(text: string) returns (out: Profile)
    ensures out == Parsed(text)
  {
    out := Zeroed();
    var p := text;
    while p != ""
      invariant ParseLines(out, Lines(p)) == Parsed(text)
      decreases |p|
    {
      LinesUnfold(p);
      var line := Clip(p[..IndexOf(p, '\n')], LINE_BUFFER);
      p := AfterLine(p);
      if line == "" || line[0] == '#' {
        continue;
      }
      var i := IndexOf(line, ':');
      if i == |line| {
        continue;
      }
      var f := FieldOf(line[..i]);
      if f.Some? {
        out := Assign(out, f.value, SkipBlanks(line[i + 1..]));
      }
    }
  }

  // ---- the round trip ----

  predicate CleanText(s: string) {
    '\n' !in s && (s == "" || !Blank(s[0]))
  }

  // What a caller can check: no newline, no leading blank, and a name whenever there is a label.
  ghost predicate Printable(p: Profile)
    requires p.IsStruct()
  {
    && (forall f <- p.texts :: CleanText(p.texts[f]))
    && (p.texts[AppName] != "" || p.texts[Label] == "")
  }

  predicate Early(f: Field) {
    f in [AppName, Label, Runner, Architecture, WindowsVersion, GfxBackend, AudioBackend,
          Runtime, Dependencies]
  }

  lemma FieldOfKeyEarly(f: Field)
    requires Early(f)
    ensures FieldOf(Key(f)) == Some(f)
  {
  }

  predicate Middle(f: Field) {
    f in [DllOverrides, Resolution, VirtualDesktop, LaunchExecutable]
  }

  lemma MiddleKeyFallsThrough(f: Field)
    requires Middle(f)
    ensures FieldOf(Key(f)) == FieldOfRest(Key(f))
  {
  }

  lemma LastKeyFallsThrough(f: Field)
    requires !Early(f) && !Middle(f)
    ensures FieldOf(Key(f)) == FieldOfRest(Key(f))
  {
  }

  lemma FieldOfKeyLate(f: Field)
    requires !Early(f)
    ensures FieldOfRest(Key(f)) == Some(f)
  {
  }

  lemma FieldOfKey(f: Field)
    ensures FieldOf(Key(f)) == Some(f)
  {
    if Early(f) {
      FieldOfKeyEarly(f);
    } else {
      if Middle(f) {
        MiddleKeyFallsThrough(f);
      } else {
        LastKeyFallsThrough(f);
      }
      FieldOfKeyLate(f);
    }
  }

  predicate PlainKey(key: string) {
    ':' !in key && '\n' !in key && 0 < |key| <= 23 && key[0] != '#'
  }

  lemma EarlyKeyIsPlain(f: Field)
    requires Early(f)
    ensures PlainKey(Key(f))
  {
    match f
    case AppName => assert PlainKey("name");
    case Label => assert PlainKey("label");
    case Runner => assert PlainKey("runner");
    case Architecture => assert PlainKey("architecture");
    case WindowsVersion => assert PlainKey("windows_version");
    case _ => OtherEarlyKey(f);
  }

  lemma OtherEarlyKey(f: Field)
    requires f in [GfxBackend, AudioBackend, Runtime, Dependencies]
    ensures PlainKey(Key(f))
  {
    match f
    case GfxBackend => assert PlainKey("graphics.backend");
    case AudioBackend => assert PlainKey("audio.backend");
    case Runtime => assert PlainKey("runtime");
    case Dependencies => assert PlainKey("dependencies");
  }

  lemma LateKeyIsPlain(f: Field)
    requires !Early(f)
    ensures PlainKey(Key(f))
  {
    match f
    case DllOverrides => assert PlainKey("dll_overrides");
    case Resolution => assert PlainKey("windows.resolution");
    case VirtualDesktop => assert PlainKey("windows.virtual_desktop");
    case LaunchExecutable => assert PlainKey("launch.executable");
    case _ => OtherLateKey(f);
  }

  lemma OtherLateKey(f: Field)
    requires f in [LaunchArgs, TrustLevel, Source, ExeHash, Version]
    ensures PlainKey(Key(f))
  {
    match f
    case LaunchArgs => assert PlainKey("launch.arguments");
    case TrustLevel => assert PlainKey("trust");
    case Source => assert PlainKey("source");
    case ExeHash => assert PlainKey("exe_hash");
    case Version => assert PlainKey("version");
  }

  lemma KeyIsPlain(f: Field)
    ensures PlainKey(Key(f))
  {
    if Early(f) {
      EarlyKeyIsPlain(f);
    } else {
      LateKeyIsPlain(f);
    }
  }

  lemma ModeRoundTrip(m: WinMode)
    ensures ModeOf(ModeName(m)) == m && CleanText(ModeName(m)) && |ModeName(m)| <= 5
  {
    assert Fold(ModeName(m)) == ModeName(m);
  }

  lemma TrustRoundTrip(t: Trust)
    ensures TrustOf(TrustName(t)) == t && CleanText(TrustName(t)) && |TrustName(t)| <= 12
  {
    assert Fold(TrustName(t)) == TrustName(t);
  }

  lemma VersionRoundTrip(v: u32)
    ensures StrToUL(Dec(v), 0) % 0x1_0000_0000 == v
  {
    ReadSignedDecInt(v, 0);
    SmallWord(v);
  }

  lemma SmallWord(v: u32)
    ensures v % 0x1_0000_0000_0000_0000 == v && v % 0x1_0000_0000 == v
  {
  }

  lemma NumberIsClean(i: int)
    requires -0x8000_0000 <= i < 0x1_0000_0000
    ensures CleanText(DecInt(i)) && |DecInt(i)| <= 21
  {
    DecIntPlain(i);
    DecIntLength(i);
    assert DecInt(i)[0] in DecInt(i);
  }

  lemma PrintedTextIsClean(p: Profile, f: Field)
    requires p.IsStruct() && Printable(p) && f.IsText()
    ensures CleanText(Printed(p, f)) && |Printed(p, f)| < 512
  {
    assert AppName.IsText() && Label.IsText();
    assert |p.texts[f]| < Capacity(f) && |p.texts[Label]| < Capacity(Label);
  }

  lemma PrintedIsClean(p: Profile, f: Field)
    requires p.IsStruct() && Printable(p)
    ensures CleanText(Printed(p, f)) && |Printed(p, f)| < 512
  {
    if f.IsText() {
      PrintedTextIsClean(p, f);
    } else if f.WindowsVersion? {
      ModeRoundTrip(p.mode);
    } else if f.TrustLevel? {
      TrustRoundTrip(p.trust);
    } else if f.VirtualDesktop? {
      NumberIsClean(p.virtualDesktop);
    } else {
      NumberIsClean(p.version);
    }
  }

  // The parsed value of a printed field.
  ghost predicate Agree(a: Profile, b: Profile, f: Field) {
    if f.IsText() then f in a.texts && f in b.texts && a.texts[f] == b.texts[f]
    else if f.WindowsVersion? then a.mode == b.mode
    else if f.VirtualDesktop? then a.virtualDesktop == b.virtualDesktop
    else if f.TrustLevel? then a.trust == b.trust
    else a.version == b.version
  }

  lemma AssignPrintedText(q: Profile, p: Profile, f: Field)
    requires p.IsStruct() && Printable(p) && f.IsText()
    ensures Agree(Assign(q, f, Printed(p, f)), p, f)
  {
    assert Clip(p.texts[f], Capacity(f)) == p.texts[f];
  }

  lemma AssignPrintedOther(q: Profile, p: Profile, f: Field)
    requires p.IsStruct() && !f.IsText()
    ensures Agree(Assign(q, f, Printed(p, f)), p, f)
  {
    if f.VirtualDesktop? {
      AtoiDecInt(p.virtualDesktop);
    } else if f.Version? {
      VersionRoundTrip(p.version);
    } else if f.WindowsVersion? {
      ModeRoundTrip(p.mode);
    } else {
      TrustRoundTrip(p.trust);
    }
  }

  lemma AssignPrinted(q: Profile, p: Profile, f: Field)
    requires p.IsStruct() && Printable(p)
    ensures Agree(Assign(q, f, Printed(p, f)), p, f)
  {
    if f.IsText() {
      AssignPrintedText(q, p, f);
    } else {
      AssignPrintedOther(q, p, f);
    }
  }

  lemma AssignOthers(q: Profile, f: Field, v: string, p: Profile, g: Field)
    requires g != f && Agree(q, p, g)
    ensures Agree(Assign(q, f, v), p, g)
  {
  }

  lemma ParsePrintedLine(q: Profile, p: Profile, f: Field)
    requires p.IsStruct() && Printable(p)
    ensures ParseLine(q, FieldLine(p, f)) == Assign(q, f, Printed(p, f))
  {
    KeyIsPlain(f);
    PrintedIsClean(p, f);
    FieldOfKey(f);
    CutLine(Key(f), Printed(p, f));
  }

  lemma CutLine(key: string, v: string)
    requires PlainKey(key) && CleanText(v) && |v| < 512
    ensures var line := key + ":" + (" " + v);
      && Clip(line, LINE_BUFFER) == line && line != "" && line[0] != '#'
      && IndexOf(line, ':') == |key| < |line| && line[..|key|] == key
      && SkipBlanks(line[|key| + 1..]) == v
  {
    KeyLine(key, ':', " " + v);
    assert (" " + v)[1..] == v;
    assert SkipBlanks(" " + v) == SkipBlanks(v);
  }

  // Fields that agree with p still do, and no text field is added that has no array.
  ghost predicate Carries(q: Profile, r: Profile, p: Profile) {
    && (forall f: Field | Agree(q, p, f) :: Agree(r, p, f))
    && (forall f: Field | f in r.texts :: f in q.texts || f.IsText())
  }

  // One printed line makes its field agree and disturbs no other.
  lemma LineAgrees(q: Profile, p: Profile, f: Field)
    requires p.IsStruct() && Printable(p)
    ensures var r := ParseLine(q, FieldLine(p, f));
      Agree(r, p, f) && Carries(q, r, p)
  {
    ParsePrintedLine(q, p, f);
    AssignPrinted(q, p, f);
    forall g: Field | g != f && Agree(q, p, g)
      ensures Agree(Assign(q, f, Printed(p, f)), p, g)
    {
      AssignOthers(q, f, Printed(p, f), p, g);
    }
  }

  lemma CarriesOn(q: Profile, next: Profile, r: Profile, p: Profile)
    requires Carries(q, next, p) && Carries(next, r, p)
    ensures Carries(q, r, p)
  {
  }

  lemma FirstLineParsed(q: Profile, p: Profile, fields: seq<Field>)
    requires p.Complete() && fields != []
    ensures ParseLines(q, FieldLines(p, fields))
         == ParseLines(ParseLine(q, FieldLine(p, fields[0])), FieldLines(p, fields[1..]))
  {
    assert FieldLines(p, fields)[1..] == FieldLines(p, fields[1..]);
  }

  lemma {:induction false} ParsedCarries(q: Profile, p: Profile, fields: seq<Field>)
    requires p.IsStruct() && Printable(p)
    ensures Carries(q, ParseLines(q, FieldLines(p, fields)), p)
    decreases |fields|
  {
    if fields != [] {
      var next := ParseLine(q, FieldLine(p, fields[0]));
      LineAgrees(q, p, fields[0]);
      ParsedCarries(next, p, fields[1..]);
      FirstLineParsed(q, p, fields);
      CarriesOn(q, next, ParseLines(q, FieldLines(p, fields)), p);
    }
  }

  lemma {:induction false} ParsedAgrees(q: Profile, p: Profile, fields: seq<Field>, f: Field)
    requires p.IsStruct() && Printable(p) && f in fields
    ensures Agree(ParseLines(q, FieldLines(p, fields)), p, f)
    decreases |fields|
  {
    var next := ParseLine(q, FieldLine(p, fields[0]));
    FirstLineParsed(q, p, fields);
    if f == fields[0] {
      LineAgrees(q, p, f);
      ParsedCarries(next, p, fields[1..]);
    } else {
      ParsedAgrees(next, p, fields[1..], f);
    }
  }

  lemma EveryField(f: Field)
    ensures f in FieldOrder()
  {
    var i := match f
      case AppName => 0 case Label => 1 case Runner => 2 case Architecture => 3
      case WindowsVersion => 4 case GfxBackend => 5 case AudioBackend => 6 case Runtime => 7
      case Dependencies => 8 case DllOverrides => 9 case Resolution => 10
      case VirtualDesktop => 11 case LaunchExecutable => 12 case LaunchArgs => 13
      case TrustLevel => 14 case Source => 15 case ExeHash => 16 case Version => 17;
    assert FieldOrder()[i] == f;
  }

  lemma AgreeIsEqual(a: Profile, b: Profile)
    requires forall f: Field :: Agree(a, b, f)
    requires b.IsStruct() && forall f: Field | f in a.texts :: f.IsText()
    ensures a == b
  {
    assert forall f: Field | f.IsText() :: Agree(a, b, f);
    assert a.texts == b.texts;
    assert Agree(a, b, WindowsVersion) && Agree(a, b, VirtualDesktop);
    assert Agree(a, b, TrustLevel) && Agree(a, b, Version);
  }

  lemma FieldLinesHaveNoNewline(p: Profile, fields: seq<Field>)
    requires p.IsStruct() && Printable(p)
    ensures forall l <- FieldLines(p, fields) :: '\n' !in l
  {
    forall i | 0 <= i < |fields|
      ensures '\n' !in FieldLine(p, fields[i])
    {
      KeyIsPlain(fields[i]);
      PrintedIsClean(p, fields[i]);
    }
  }

  lemma BannerIsSkipped(q: Profile)
    ensures '\n' !in BANNER && ParseLine(q, BANNER) == q
  {
  }

  lemma PrintableRoundTrip(p: Profile)
    requires p.IsStruct() && Printable(p)
    ensures Parsed(Written(p)) == p
  {
    var lines := FieldLines(p, FieldOrder());
    BannerIsSkipped(Zeroed());
    FieldLinesHaveNoNewline(p, FieldOrder());
    LinesOfUnlines([BANNER] + lines);
    assert ([BANNER] + lines)[1..] == lines;
    ParsedCarries(Zeroed(), p, FieldOrder());
    forall f: Field
      ensures Agree(Parsed(Written(p)), p, f)
    {
      EveryField(f);
      ParsedAgrees(Zeroed(), p, FieldOrder(), f);
    }
    AgreeIsEqual(Parsed(Written(p)), p);
  }

  ghost predicate CleanTexts(p: Profile) {
    forall f <- p.texts :: CleanText(p.texts[f])
  }

  lemma {:induction false} ParsedIsClean(q: Profile, lines: seq<string>)
    requires CleanTexts(q) && forall l <- lines :: '\n' !in l
    ensures CleanTexts(ParseLines(q, lines))
    decreases |lines|
  {
    if lines != [] {
      ParseLineIsClean(q, lines[0]);
      ParsedIsClean(ParseLine(q, lines[0]), lines[1..]);
    }
  }

  lemma ParseLineIsClean(q: Profile, whole: string)
    requires CleanTexts(q) && '\n' !in whole
    ensures CleanTexts(ParseLine(q, whole))
  {
    var line := Clip(whole, LINE_BUFFER);
    var i := IndexOf(line, ':');
    if i < |line| && FieldOf(line[..i]).Some? {
      var f, v := FieldOf(line[..i]).value, SkipBlanks(line[i + 1..]);
      assert '\n' !in v;
      assert CleanText(Clip(v, Capacity(f)));
    }
  }

  // Parsing what was printed gives the profile back if and only if it is printable.
  lemma PrintParseIff(p: Profile)
    requires p.IsStruct()
    ensures Parsed(Written(p)) == p <==> Printable(p)
  {
    if Printable(p) {
      PrintableRoundTrip(p);
    } else if CleanTexts(p) {
      UnnamedComesBackNamed(p);
    } else {
      ParsedIsClean(Zeroed(), Lines(Written(p)));
    }
  }

  // An unnamed profile prints its label as the name and is read back under it.
  lemma UnnamedComesBackNamed(p: Profile)
    requires p.IsStruct() && CleanTexts(p) && !Printable(p)
    ensures Parsed(Written(p)) != p
  {
    assert AppName.IsText() && Label.IsText();
    var named := p.(texts := p.texts[AppName := p.texts[Label]]);
    PrintableRoundTrip(named);
    SameFieldLines(p, named, FieldOrder());
    assert named.texts[AppName] != p.texts[AppName];
  }

  lemma {:induction false} SameFieldLines(p: Profile, q: Profile, fields: seq<Field>)
    requires p.IsStruct() && q.IsStruct()
    requires p.texts[AppName] == "" && q == p.(texts := p.texts[AppName := p.texts[Label]])
    ensures FieldLines(p, fields) == FieldLines(q, fields)
    decreases |fields|
  {
    if fields != [] {
      SameFieldLines(p, q, fields[1..]);
    }
  }
}
