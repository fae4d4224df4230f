// The workspace record: app.conf as it is saved and as it is loaded back.
module Workspace {
  import opened Status
  import opened Text
  import opened Decimal
  import opened Words
  import opened Settings

  const READ_BUFFER: nat := 16384
  const NUMBER_BUFFER: nat := 64
  const NAME_SIZE: nat := 64
  const PATH_SIZE: nat := 640

  datatype TextField =
    | Id | SetupLabel | Source | Executable | Architecture | Runner | GfxBackend | AudioBackend
    | DllOverrides | Dependencies | Tags | InstalledAt | LastLaunch | ExeHash | CompatRating
    | Controls

  datatype NumberField =
    | Setup | WindowsVersion | Favorite | HasShortcut | InstallSize | PerfMode
    | ResolutionWidth | ResolutionHeight | Dpi | VirtualDesktop | Permissions | SandboxEnabled

  datatype Field = Chars(text: TextField) | Number(number: NumberField)

  // The order cellar_workspace_save prints in.
  function FieldOrder(): seq<Field> {
    [Chars(Id), Number(Setup), Chars(SetupLabel), Chars(Source), Chars(Executable),
     Chars(Architecture), Chars(Runner), Number(WindowsVersion), Chars(GfxBackend),
     Chars(AudioBackend), Chars(DllOverrides), Chars(Dependencies), Chars(Tags),
     Chars(InstalledAt), Chars(LastLaunch), Chars(ExeHash), Chars(CompatRating),
     Number(Favorite), Number(HasShortcut), Number(InstallSize), Number(PerfMode),
     Number(ResolutionWidth), Number(ResolutionHeight), Number(Dpi), Number(VirtualDesktop),
     Number(Permissions), Chars(Controls), Number(SandboxEnabled)]
  }

  function TextKey(t: TextField): string {
    match t
    case Id => "id"
    case SetupLabel => "setup_label"
    case Source => "source"
    case Executable => "executable"
    case Architecture => "architecture"
    case Runner => "runner"
    case GfxBackend => "gfx_backend"
    case AudioBackend => "audio_backend"
    case DllOverrides => "dll_overrides"
    case Dependencies => "dependencies"
    case Tags => "tags"
    case InstalledAt => "installed_at"
    case LastLaunch => "last_launch"
    case ExeHash => "exe_hash"
    case CompatRating => "compat_rating"
    case Controls => "controls"
  }

  function NumberKey(n: NumberField): string {
    match n
    case Setup => "setup"
    case WindowsVersion => "windows_version"
    case Favorite => "favorite"
    case HasShortcut => "has_shortcut"
    case InstallSize => "install_size"
    case PerfMode => "perf_mode"
    case ResolutionWidth => "resolution_width"
    case ResolutionHeight => "resolution_height"
    case Dpi => "dpi"
    case VirtualDesktop => "virtual_desktop"
    case Permissions => "permissions"
    case SandboxEnabled => "sandbox_enabled"
  }

  function Key(f: Field): string {
    match f
    case Chars(t) => TextKey(t)
    case Number(n) => NumberKey(n)
  }

  // The size of a field's character array.
  function Capacity(t: TextField): (c: nat)
    ensures 0 < c <= 512
  {
    match t
    case Id => 32
    case SetupLabel => 24
    case Source => 512
    case Executable => 512
    case Architecture => 16
    case Runner => 64
    case GfxBackend => 32
    case AudioBackend => 32
    case DllOverrides => 512
    case Dependencies => 256
    case Tags => 256
    case InstalledAt => 40
    case LastLaunch => 40
    case ExeHash => 40
    case CompatRating => 16
    case Controls => 128
  }

  // Int is read by field_int, Word by field_int and a cast, Flags and Size by field_u64.
  datatype Kind = Int | Word | Flags | Size

  function KindOf(n: NumberField): Kind {
    match n
    case ResolutionWidth => Word
    case ResolutionHeight => Word
    case Dpi => Word
    case Permissions => Flags
    case InstallSize => Size
    case _ => Int
  }

  // The value of a number whose line is missing.
  function Default(n: NumberField): int {
    match n
    case WindowsVersion => 2
    case ResolutionWidth => 1280
    case ResolutionHeight => 720
    case Dpi => 96
    case SandboxEnabled => 1
    case _ => 0
  }

  // Character arrays and numbers, by field.
  datatype Record = Record(
    name: string, path: string, texts: map<TextField, string>, numbers: map<NumberField, int>)
  {
    ghost predicate Complete() {
      (forall t: TextField :: t in texts) && (forall n: NumberField :: n in numbers)
    }

    // A value of the C struct.
    ghost predicate IsStruct() {
      && |name| < NAME_SIZE && |path| < PATH_SIZE && '\0' !in name && '\0' !in path
      && Complete()
      && (forall t: TextField :: |texts[t]| < Capacity(t) && '\0' !in texts[t])
      && (forall n: NumberField :: InRange(KindOf(n), numbers[n]))
    }

    // No text of the struct holds a newline.
    ghost predicate IsLineClean() {
      forall t <- texts :: '\n' !in texts[t]
    }
  }

  predicate InRange(k: Kind, v: int) {
    match k
    case Int => -0x8000_0000 <= v < 0x8000_0000
    case Size => 0 <= v < TWO64
    case _ => 0 <= v < TWO32
  }

  // ---- saving ----

  // cellar_setup_kind_name
  function KindName(setup: int): string {
    if setup == 1 then "msi" else if setup == 2 then "import" else if setup == 3 then "portable" else "exe"
  }

  function PrintedText(w: Record, t: TextField): string
    requires w.Complete()
  {
    if t == SetupLabel && w.texts[t] == "" then KindName(w.numbers[Setup]) else w.texts[t]
  }

  function Printed(w: Record, f: Field): string
    requires w.Complete()
  {
    match f
    case Chars(t) => PrintedText(w, t)
    case Number(n) => DecInt(w.numbers[n])
  }

  function FieldLine(w: Record, f: Field): string
    requires w.Complete()
  {
    Key(f) + "=" + Printed(w, f)
  }

  function FieldLines(w: Record, fields: seq<Field>): (ls: seq<string>)
    requires w.Complete()
    ensures |ls| == |fields|
    ensures forall i | 0 <= i < |fields| :: ls[i] == FieldLine(w, fields[i])
  {
    if fields == [] then [] else [FieldLine(w, fields[0])] + FieldLines(w, fields[1..])
  }

  function Heading(w: Record): seq<string> {
    ["# winaltor workspace " + w.name, "name=" + w.name, "path=" + w.path]
  }

  function Saved(w: Record): string
    requires w.Complete()
  {
    Unlines(Heading(w) + FieldLines(w, FieldOrder()))
  }

  // ---- loading ----

  function ReadNumber(k: Kind, s: string): int {
    match k
    case Size => StrToUL(s, 0)
    case Flags => StrToUL(s, 0) % TWO32
    case Word => ToI32(StrToL(s, 0)) % TWO32
    case Int => ToI32(StrToL(s, 0))
  }

  // find_field into a zeroed array.
  function TextFrom(lines: seq<string>, t: TextField): string {
    match Lookup(lines, TextKey(t))
    case Some(v) => Clip(v, Capacity(t))
    case None => ""
  }

  // field_int and field_u64
  function NumberFrom(lines: seq<string>, n: NumberField): int {
    match Lookup(lines, NumberKey(n))
    case Some(v) => ReadNumber(KindOf(n), Clip(v, NUMBER_BUFFER))
    case None => Default(n)
  }

  function Loaded(text: string, name: string, path: string): Record {
    FromLines(Lines(Seen(text, READ_BUFFER)), name, path)
  }

  function FromLines(lines: seq<string>, name: string, path: string): Record {
    Record(Clip(name, NAME_SIZE), Clip(path, PATH_SIZE),
           map t: TextField | true :: TextFrom(lines, t),
           map n: NumberField | true :: NumberFrom(lines, n))
  }

  // The scan over the text for one key; None is the NULL result.
  method FindField(conf: string, key: string, cap: nat) returns (value: Option<string>)
    requires cap > 0
    ensures value == match Lookup(Lines(conf), key)
                     case Some(v) => Some(Clip(v, cap))
                     case None => None
  {
    var p := conf;
    while p != ""
      invariant Lookup(Lines(conf), key) == Lookup(Lines(p), key)
      decreases |p|
    {
      LinesUnfold(p);
      var line := p[..IndexOf(p, '\n')];
      if IsFor(line, key) {
        return Some(Clip(line[|key| + 1..], cap));
      }
      p := AfterLine(p);
    }
    return None;
  }

  // ---- keys ----

  lemma EveryField(f: Field)
    ensures f in FieldOrder()
  {
    var all := FieldOrder();
    match f
    case Chars(t) => assert f == all[TextPlace(t)];
    case Number(n) => assert f == all[NumberPlace(n)];
  }

  function TextPlace(t: TextField): nat {
    match t
    case Id => 0 case SetupLabel => 2 case Source => 3 case Executable => 4
    case Architecture => 5 case Runner => 6 case GfxBackend => 8 case AudioBackend => 9
    case DllOverrides => 10 case Dependencies => 11 case Tags => 12 case InstalledAt => 13
    case LastLaunch => 14 case ExeHash => 15 case CompatRating => 16 case Controls => 26
  }

  function NumberPlace(n: NumberField): nat {
    match n
    case Setup => 1 case WindowsVersion => 7 case Favorite => 17 case HasShortcut => 18
    case InstallSize => 19 case PerfMode => 20 case ResolutionWidth => 21
    case ResolutionHeight => 22 case Dpi => 23 case VirtualDesktop => 24
    case Permissions => 25 case SandboxEnabled => 27
  }

  // The field a key belongs to, told by its length and its first and last character.
  function FieldOf(key: string): Field
    requires key != ""
  {
    var n, a, z := |key|, key[0], key[|key| - 1];
    if n == 2 then Chars(Id) else if n == 3 then Number(Dpi) else if n == 4 then Chars(Tags)
    else if n == 5 then Number(Setup)
    else if n == 6 then (if a == 's' then Chars(Source) else Chars(Runner))
    else if n == 8 then
      (if a == 'e' then Chars(ExeHash) else if a == 'f' then Number(Favorite) else Chars(Controls))
    else if n == 9 then Number(PerfMode) else if n == 10 then Chars(Executable)
    else if n == 11 then
      (if a == 's' then Chars(SetupLabel) else if a == 'g' then Chars(GfxBackend)
       else if a == 'l' then Chars(LastLaunch) else Number(Permissions))
    else if n == 12 then
      (if a == 'a' then Chars(Architecture) else if a == 'd' then Chars(Dependencies)
       else if a == 'h' then Number(HasShortcut)
       else if z == 't' then Chars(InstalledAt) else Number(InstallSize))
    else if n == 13 then
      (if a == 'a' then Chars(AudioBackend) else if a == 'd' then Chars(DllOverrides) else Chars(CompatRating))
    else if n == 15 then
      (if a == 'w' then Number(WindowsVersion) else if a == 'v' then Number(VirtualDesktop)
       else Number(SandboxEnabled))
    else if n == 16 then Number(ResolutionWidth) else Number(ResolutionHeight)
  }

  lemma TextFieldOfKey(t: TextField)
    ensures 0 < |TextKey(t)| <= 17 && FieldOf(TextKey(t)) == Chars(t)
    ensures TextKey(t) != "name" && TextKey(t) != "path"
  {
  }

  lemma NumberFieldOfKey(n: NumberField)
    ensures 0 < |NumberKey(n)| <= 17 && FieldOf(NumberKey(n)) == Number(n)
    ensures |NumberKey(n)| != 4
  {
  }

  lemma FieldOfKey(f: Field)
    ensures 0 < |Key(f)| <= 17 && FieldOf(Key(f)) == f
    ensures Key(f) != "name" && Key(f) != "path"
  {
    match f
    case Chars(t) => TextFieldOfKey(t);
    case Number(n) => NumberFieldOfKey(n);
  }

  predicate IsLetter(c: char) { 'a' <= c <= 'z' || c == '_' }

  lemma TextKeyIsPlain(t: TextField)
    ensures forall c <- TextKey(t) :: IsLetter(c)
  {
  }

  lemma NumberKeyIsPlain(n: NumberField)
    ensures forall c <- NumberKey(n) :: IsLetter(c)
  {
  }

  lemma KeyIsPlain(f: Field)
    ensures forall c <- Key(f) :: IsLetter(c)
    ensures '=' !in Key(f) && '\n' !in Key(f) && '\0' !in Key(f) && '#' !in Key(f)
  {
    match f
    case Chars(t) => TextKeyIsPlain(t);
    case Number(n) => NumberKeyIsPlain(n);
  }

  // ---- the saved lines ----

  ghost predicate Savable(w: Record) {
    w.IsStruct() && w.IsLineClean()
  }

  lemma PrintedIsClean(w: Record, f: Field)
    requires Savable(w)
    ensures '\n' !in Printed(w, f) && '\0' !in Printed(w, f) && |Printed(w, f)| < 512
  {
    match f
    case Chars(t) => assert |w.texts[t]| < Capacity(t);
    case Number(n) =>
      assert InRange(KindOf(n), w.numbers[n]);
      DecIntPlain(w.numbers[n]);
      DecIntLength(w.numbers[n]);
  }

  lemma FieldLineIsClean(w: Record, f: Field)
    requires Savable(w)
    ensures '\n' !in FieldLine(w, f) && '\0' !in FieldLine(w, f) && |FieldLine(w, f)| < 530
  {
    PrintedIsClean(w, f);
    KeyIsPlain(f);
    FieldOfKey(f);
  }

  lemma {:induction false} FieldLinesAreClean(w: Record, fields: seq<Field>)
    requires Savable(w)
    ensures forall l <- FieldLines(w, fields) :: '\n' !in l && '\0' !in l
    ensures |Unlines(FieldLines(w, fields))| <= 530 * |fields|
  {
    if fields != [] {
      FieldLineIsClean(w, fields[0]);
      FieldLinesAreClean(w, fields[1..]);
      assert FieldLines(w, fields)[1..] == FieldLines(w, fields[1..]);
    }
  }

  // The lines a reader finds in the heading; a newline in the name or the path splits them.
  function HeadingLines(w: Record): seq<string> {
    Lines(Unlines(Heading(w)))
  }

  // The saved file as a reader splits it when the heading reads as these lines.
  function SavedBelow(w: Record, heading: seq<string>): seq<string>
    requires w.Complete()
  {
    heading + FieldLines(w, FieldOrder())
  }

  lemma HeadingFits(w: Record)
    requires w.IsStruct()
    ensures '\0' !in Unlines(Heading(w)) && 0 < |Unlines(Heading(w))| < 1000
    ensures Unlines(Heading(w))[|Unlines(Heading(w))| - 1] == '\n'
  {
    var h := Heading(w);
    assert Unlines(h[2..]) == h[2] + "\n";
    assert Unlines(h[1..]) == h[1] + "\n" + Unlines(h[1..][1..]);
    assert h[1..][1..] == h[2..];
    CleanUnlines(h);
  }

  lemma SplitSaved(heading: string, fields: seq<string>)
    requires heading != "" && heading[|heading| - 1] == '\n' && '\0' !in heading
    requires forall l <- fields :: '\n' !in l && '\0' !in l
    requires |heading| + |Unlines(fields)| < READ_BUFFER
    ensures Lines(Seen(heading + Unlines(fields), READ_BUFFER)) == Lines(heading) + fields
  {
    CleanUnlines(fields);
    LinesAppend(heading, Unlines(fields));
    LinesOfUnlines(fields);
  }

  // The file is shorter than the reader's buffer, so the reader sees every line.
  lemma SavedLines(w: Record)
    requires Savable(w)
    ensures Lines(Seen(Saved(w), READ_BUFFER)) == SavedBelow(w, HeadingLines(w))
  {
    var fields := FieldLines(w, FieldOrder());
    HeadingFits(w);
    FieldLinesAreClean(w, FieldOrder());
    UnlinesAppend(Heading(w), fields);
    SplitSaved(Unlines(Heading(w)), fields);
  }

  lemma OtherLine(w: Record, f: Field, g: Field)
    requires w.Complete() && f != g
    ensures !IsFor(FieldLine(w, g), Key(f))
  {
    NewLineIsFor(Key(g), Printed(w, g));
    KeyIsPlain(f);
    KeyIsPlain(g);
    FieldOfKey(f);
    FieldOfKey(g);
    if IsFor(FieldLine(w, g), Key(f)) {
      OneKeyPerLine(FieldLine(w, g), Key(f), Key(g));
    }
  }

  lemma {:induction false} LookupField(w: Record, fields: seq<Field>, f: Field)
    requires w.Complete() && f in fields
    ensures Lookup(FieldLines(w, fields), Key(f)) == Some(Printed(w, f))
  {
    var lines := FieldLines(w, fields);
    assert lines[1..] == FieldLines(w, fields[1..]);
    if f == fields[0] {
      NewLineIsFor(Key(f), Printed(w, f));
    } else {
      OtherLine(w, f, fields[0]);
      LookupField(w, fields[1..], f);
    }
  }

  lemma NotAHeading(w: Record, f: Field, i: nat)
    requires i < 3
    ensures !IsFor(Heading(w)[i], Key(f))
  {
    var line := Heading(w)[i];
    KeyIsPlain(f);
    FieldOfKey(f);
    if i == 0 {
      assert line[0] == '#';
    } else {
      NewLineIsFor("name", w.name);
      NewLineIsFor("path", w.path);
      OneOf(line, Key(f), if i == 1 then "name" else "path");
    }
  }

  lemma OneOf(line: string, k1: string, k2: string)
    requires '=' !in k1 && '=' !in k2 && k1 != k2 && IsFor(line, k2)
    ensures !IsFor(line, k1)
  {
    if IsFor(line, k1) {
      OneKeyPerLine(line, k1, k2);
    }
  }

  lemma {:induction false} LookupAppend(a: seq<string>, b: seq<string>, key: string)
    ensures Lookup(a + b, key) == if Lookup(a, key).Some? then Lookup(a, key) else Lookup(b, key)
    decreases |a|
  {
    if a == [] {
      assert a + b == b;
    } else {
      LookupAppend(a[1..], b, key);
      assert (a + b)[1..] == a[1..] + b;
    }
  }

  // Each field is found in the heading, if a line there is for its key, and otherwise as it
  // was printed.
  lemma LookupSaved(w: Record, heading: seq<string>, f: Field)
    requires w.Complete()
    ensures Lookup(SavedBelow(w, heading), Key(f)) ==
      if Lookup(heading, Key(f)).Some? then Lookup(heading, Key(f)) else Some(Printed(w, f))
  {
    LookupAppend(heading, FieldLines(w, FieldOrder()), Key(f));
    EveryField(f);
    LookupField(w, FieldOrder(), f);
  }

  // Without a newline in the name and the path no line of the heading is for a field.
  lemma PlainHeadingIsSilent(w: Record, f: Field)
    requires '\n' !in w.name && '\n' !in w.path
    ensures Lookup(HeadingLines(w), Key(f)) == None
  {
    PlainHeading(w);
    forall l | l in Heading(w)
      ensures !IsFor(l, Key(f))
    {
      var i :| 0 <= i < 3 && Heading(w)[i] == l;
      NotAHeading(w, f, i);
    }
    NoneFor(Heading(w), Key(f));
  }

  lemma PlainHeading(w: Record)
    requires '\n' !in w.name && '\n' !in w.path
    ensures HeadingLines(w) == Heading(w)
  {
    LinesOfUnlines(Heading(w));
  }

  lemma {:induction false} NoneFor(lines: seq<string>, key: string)
    requires forall l <- lines :: !IsFor(l, key)
    ensures Lookup(lines, key) == None
  {
    if lines != [] {
      assert lines[0] in lines;
      NoneFor(lines[1..], key);
    }
  }

  // Decimal output read with base 0, through the casts of the field's reader.
  lemma NumberRoundTrip(k: Kind, v: int)
    requires InRange(k, v)
    ensures ReadNumber(k, Clip(DecInt(v), NUMBER_BUFFER)) == v
  {
    DecIntLength(v);
    ReadSignedDecInt(v, 0);
    CastBack(v);
  }

  lemma CastBack(v: int)
    ensures -0x8000_0000 <= v < 0x8000_0000 ==> ToI32(v) == v
    ensures 0 <= v < TWO32 ==> ToI32(v) % TWO32 == v
    ensures 0 <= v < TWO32 ==> v % TWO32 == v
    ensures 0 <= v < TWO64 ==> v % TWO64 == v
  {
  }

  // ---- loading what was saved ----

  // What load makes of a field of the file save wrote.
  function ReloadedText(w: Record, heading: seq<string>, t: TextField): string
    requires w.Complete()
  {
    match Lookup(heading, TextKey(t))
    case Some(v) => Clip(v, Capacity(t))
    case None => PrintedText(w, t)
  }

  function ReloadedNumber(w: Record, heading: seq<string>, n: NumberField): int
    requires w.Complete()
  {
    match Lookup(heading, NumberKey(n))
    case Some(v) => ReadNumber(KindOf(n), Clip(v, NUMBER_BUFFER))
    case None => w.numbers[n]
  }

  function ReloadedUnder(w: Record, heading: seq<string>): Record
    requires w.Complete()
  {
    Record(w.name, w.path,
           map t: TextField | true :: ReloadedText(w, heading, t),
           map n: NumberField | true :: ReloadedNumber(w, heading, n))
  }

  // The record itself, but an empty setup label comes back as the name of the setup kind,
  // and a field some line of the heading is for comes back from there.
  function Reloaded(w: Record): Record
    requires w.Complete()
  {
    ReloadedUnder(w, HeadingLines(w))
  }

  lemma TextIsBack(w: Record, heading: seq<string>, t: TextField)
    requires w.IsStruct()
    ensures TextFrom(SavedBelow(w, heading), t) == ReloadedText(w, heading, t)
  {
    LookupSaved(w, heading, Chars(t));
    assert |w.texts[t]| < Capacity(t);
  }

  lemma NumberIsBack(w: Record, heading: seq<string>, n: NumberField)
    requires w.IsStruct()
    ensures NumberFrom(SavedBelow(w, heading), n) == ReloadedNumber(w, heading, n)
  {
    LookupSaved(w, heading, Number(n));
    NumberRoundTrip(KindOf(n), w.numbers[n]);
  }

  lemma AllIsBack(w: Record, heading: seq<string>)
    requires w.IsStruct()
    ensures FromLines(SavedBelow(w, heading), w.name, w.path) == ReloadedUnder(w, heading)
  {
    forall t: TextField
      ensures TextFrom(SavedBelow(w, heading), t) == ReloadedText(w, heading, t)
    {
      TextIsBack(w, heading, t);
    }
    forall n: NumberField
      ensures NumberFrom(SavedBelow(w, heading), n) == ReloadedNumber(w, heading, n)
    {
      NumberIsBack(w, heading, n);
    }
  }

  lemma LoadOfSave(w: Record)
    requires Savable(w)
    ensures Loaded(Saved(w), w.name, w.path) == Reloaded(w)
  {
    SavedLines(w);
    AllIsBack(w, HeadingLines(w));
  }

  lemma {:induction false} LookupLacks(lines: seq<string>, key: string, c: char)
    requires forall l <- lines :: c !in l
    ensures Lookup(lines, key).Some? ==> c !in Lookup(lines, key).value
  {
    if lines != [] {
      assert lines[0] in lines;
      LookupLacks(lines[1..], key, c);
    }
  }

  lemma LoadedText(lines: seq<string>, t: TextField)
    requires forall l <- lines :: '\n' !in l && '\0' !in l
    ensures var s := TextFrom(lines, t);
      |s| < Capacity(t) && '\n' !in s && '\0' !in s
  {
    LookupLacks(lines, TextKey(t), '\n');
    LookupLacks(lines, TextKey(t), '\0');
  }

  lemma LoadedNumber(lines: seq<string>, n: NumberField)
    ensures InRange(KindOf(n), NumberFrom(lines, n))
  {
  }

  // Whatever is in the file, the loaded record is a proper struct without newlines.
  lemma LoadedIsStruct(text: string, name: string, path: string)
    requires '\0' !in name && '\0' !in path
    ensures Loaded(text, name, path).IsStruct() && Loaded(text, name, path).IsLineClean()
  {
    var lines := Lines(Seen(text, READ_BUFFER));
    LinesHaveNoNul(Seen(text, READ_BUFFER));
    forall t: TextField
      ensures var s := TextFrom(lines, t); |s| < Capacity(t) && '\n' !in s && '\0' !in s
    {
      LoadedText(lines, t);
    }
    forall n: NumberField
      ensures InRange(KindOf(n), NumberFrom(lines, n))
    {
      LoadedNumber(lines, n);
    }
  }

  lemma LoadedIsClean(text: string, name: string, path: string)
    ensures Loaded(text, name, path).IsLineClean()
  {
    var lines := Lines(Seen(text, READ_BUFFER));
    forall t: TextField
      ensures '\n' !in TextFrom(lines, t)
    {
      LookupLacks(lines, TextKey(t), '\n');
    }
  }

  // Loading any file, saving and loading again reaches a record that stays as it is.
  lemma ReloadIsStable(text: string, name: string, path: string)
    requires '\0' !in name && '\0' !in path
    ensures var w := Loaded(text, name, path);
      w.IsStruct()
      && var again := Loaded(Saved(w), w.name, w.path);
         again.IsStruct() && Loaded(Saved(again), w.name, w.path) == again
  {
    LoadedIsStruct(text, name, path);
    var w := Loaded(text, name, path);
    StaysReloaded(w);
  }

  lemma StaysReloaded(w: Record)
    requires Savable(w)
    ensures var again := Loaded(Saved(w), w.name, w.path);
      again.IsStruct() && Loaded(Saved(again), w.name, w.path) == again
  {
    LoadOfSave(w);
    LoadedIsStruct(Saved(w), w.name, w.path);
    LoadOfSave(Reloaded(w));
    ReloadedTwice(w);
  }

  lemma ReloadedTwice(w: Record)
    requires w.Complete() && Reloaded(w).Complete()
    ensures Reloaded(Reloaded(w)) == Reloaded(w)
  {
    assert Heading(Reloaded(w)) == Heading(w);
    TwiceUnder(w, HeadingLines(w));
  }

  lemma TwiceUnder(w: Record, heading: seq<string>)
    requires w.Complete()
    ensures var r := ReloadedUnder(w, heading);
      r.Complete() && ReloadedUnder(r, heading) == r
  {
    var r := ReloadedUnder(w, heading);
    forall t: TextField
      ensures ReloadedText(r, heading, t) == r.texts[t]
    {
    }
  }

  // A field comes back: from the heading, if a line there is for its key, or as printed.
  ghost predicate ReadsBack(w: Record, heading: seq<string>, f: Field)
    requires w.Complete()
  {
    match Lookup(heading, Key(f))
    case None => f == Chars(SetupLabel) ==> w.texts[SetupLabel] != ""
    case Some(v) =>
      match f
      case Chars(t) => Clip(v, Capacity(t)) == w.texts[t]
      case Number(n) => ReadNumber(KindOf(n), Clip(v, NUMBER_BUFFER)) == w.numbers[n]
  }

  lemma TextReadsBack(w: Record, heading: seq<string>, t: TextField)
    requires w.Complete()
    ensures ReadsBack(w, heading, Chars(t)) <==> ReloadedText(w, heading, t) == w.texts[t]
  {
  }

  lemma NumberReadsBack(w: Record, heading: seq<string>, n: NumberField)
    requires w.Complete()
    ensures ReadsBack(w, heading, Number(n)) <==> ReloadedNumber(w, heading, n) == w.numbers[n]
  {
  }

  lemma ReloadedIff(w: Record, heading: seq<string>)
    requires w.Complete()
    ensures ReloadedUnder(w, heading) == w <==> forall f: Field :: ReadsBack(w, heading, f)
  {
    var r := ReloadedUnder(w, heading);
    if r == w {
      forall f: Field
        ensures ReadsBack(w, heading, f)
      {
        match f
        case Chars(t) =>
          assert r.texts[t] == w.texts[t];
          TextReadsBack(w, heading, t);
        case Number(n) =>
          assert r.numbers[n] == w.numbers[n];
          NumberReadsBack(w, heading, n);
      }
    }
    if forall f: Field :: ReadsBack(w, heading, f) {
      forall t: TextField
        ensures r.texts[t] == w.texts[t]
      {
        assert ReadsBack(w, heading, Chars(t));
        TextReadsBack(w, heading, t);
      }
      forall n: NumberField
        ensures r.numbers[n] == w.numbers[n]
      {
        assert ReadsBack(w, heading, Number(n));
        NumberReadsBack(w, heading, n);
      }
    }
  }

  // Loading what was saved gives the record back exactly when no text holds a newline and
  // each field comes back: where the heading is silent only an empty setup label does not.
  lemma SaveLoadIff(w: Record)
    requires w.IsStruct()
    ensures Loaded(Saved(w), w.name, w.path) == w
      <==> w.IsLineClean() && forall f: Field :: ReadsBack(w, HeadingLines(w), f)
  {
    LoadedIsClean(Saved(w), w.name, w.path);
    if w.IsLineClean() {
      LoadOfSave(w);
      ReloadedIff(w, HeadingLines(w));
    }
  }

  // With a plain name and path that leaves the newlines and the setup label.
  lemma PlainSaveLoadIff(w: Record)
    requires w.IsStruct() && '\n' !in w.name && '\n' !in w.path
    ensures Loaded(Saved(w), w.name, w.path) == w <==> w.IsLineClean() && w.texts[SetupLabel] != ""
  {
    SaveLoadIff(w);
    forall f: Field
      ensures Lookup(HeadingLines(w), Key(f)) == None
    {
      PlainHeadingIsSilent(w, f);
    }
    SilentReadsBack(w, HeadingLines(w));
  }

  lemma SilentReadsBack(w: Record, heading: seq<string>)
    requires w.Complete() && forall f: Field :: Lookup(heading, Key(f)) == None
    ensures (forall f: Field :: ReadsBack(w, heading, f)) <==> w.texts[SetupLabel] != ""
  {
    assert ReadsBack(w, heading, Chars(SetupLabel)) <==> w.texts[SetupLabel] != "";
  }

  // A name with a newline can forge a field: this workspace comes back under another id.
  lemma ForgedId(w: Record)
    requires Savable(w) && w.name == "a\nid=b"
    ensures Loaded(Saved(w), w.name, w.path).texts[Id] == "b"
  {
    LoadOfSave(w);
    ForgedHeading(w);
  }

  lemma ForgedHeading(w: Record)
    requires w.name == "a\nid=b"
    ensures Lookup(HeadingLines(w), "id") == Some("b")
  {
    var start, forged, rest := "# winaltor workspace ", "id=b", Unlines(Heading(w)[1..]);
    var banner := start + "a";
    assert w.name == "a" + "\n" + forged;
    assert start + ("a" + "\n" + forged) + "\n" + rest == banner + "\n" + (forged + "\n" + rest);
    TwoLinesFirst(banner, forged, rest);
    ForgedLookup(banner, forged, Lines(rest));
  }

  lemma TwoLinesFirst(a: string, b: string, rest: string)
    requires '\n' !in a && '\n' !in b
    ensures Lines(a + "\n" + (b + "\n" + rest)) == [a] + ([b] + Lines(rest))
  {
    FirstLine(a, b + "\n" + rest);
    FirstLine(b, rest);
  }

  lemma ForgedLookup(banner: string, forged: string, rest: seq<string>)
    requires banner != "" && banner[0] == '#' && forged == "id=b"
    ensures Lookup([banner] + ([forged] + rest), "id") == Some("b")
  {
    var lines := [banner] + ([forged] + rest);
    assert lines[1..] == [forged] + rest;
    assert lines[1..][0] == forged;
    assert forged[..2] == "id" && forged[3..] == "b";
    assert banner[..1] != "id"[..1];
  }
}
