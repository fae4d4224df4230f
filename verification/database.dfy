// The application compatibility database: a table keyed by application name up
// to case, and its text file.
module Database {
  import opened Status
  import opened Text
  import opened Decimal
  import opened Words

  const LINE_BUFFER: nat := 512
  const MAX_ISSUES: nat := 8

  datatype Entry = Entry(
    application: string, architecture: string, graphics: string, audio: string, input: string,
    dotnet: i32, vcruntime: i32, rating: i32, issues: seq<string>)
  {
    // The strings fit the fields of cellar_db_entry_t.
    predicate Fits() {
      && FitsField(application, 128) && FitsField(architecture, 16)
      && FitsField(graphics, 32) && FitsField(audio, 32) && FitsField(input, 32)
      && |issues| <= MAX_ISSUES && (forall t <- issues :: FitsField(t, 160))
    }

    // Nothing in it can be mistaken for the file's own punctuation.
    predicate Clean() {
      && ']' !in application && '\n' !in application
      && '\n' !in architecture && '\n' !in graphics && '\n' !in audio && '\n' !in input
      && (forall t <- issues :: '\n' !in t)
    }
  }

  // A C string that fits a buffer next to its terminator.
  predicate FitsField(s: string, cap: nat) { |s| < cap && '\0' !in s }

  function Blank(application: string): Entry {
    Entry(application, "", "", "", "", 0, 0, 0, [])
  }

  // ---- the keyed table ----

  predicate SameName(a: string, b: string) { Fold(a) == Fold(b) }

  // As strcasecmp sees them: letter by letter, in either case.
  lemma SameNameIff(a: string, b: string)
    ensures SameName(a, b) <==> |a| == |b| && forall i | 0 <= i < |a| :: SameLetter(a[i], b[i])
  {
    FoldIff(a, b);
  }

  // The first entry under the name, or the number of entries.
  function IndexFor(entries: seq<Entry>, name: string): (i: nat)
    ensures i <= |entries|
    ensures forall j | 0 <= j < i :: !SameName(entries[j].application, name)
    ensures i < |entries| ==> SameName(entries[i].application, name)
  {
    if entries == [] || SameName(entries[0].application, name) then 0
    else
      var i := 1 + IndexFor(entries[1..], name);
      assert forall j | 0 < j < i :: entries[j] == entries[1..][j - 1];
      i
  }

  function Find(entries: seq<Entry>, name: string): Option<Entry> {
    var i := IndexFor(entries, name);
    if i < |entries| then Some(entries[i]) else None
  }

  function Put(entries: seq<Entry>, e: Entry): seq<Entry> {
    if e.application == "" then entries
    else
      var i := IndexFor(entries, e.application);
      if i < |entries| then entries[i := e] else entries + [e]
  }

  // Non-empty names, no two equal up to case.
  ghost predicate Keyed(entries: seq<Entry>) {
    && (forall e <- entries :: e.application != "")
    && (forall i, j | 0 <= i < j < |entries| ::
          !SameName(entries[i].application, entries[j].application))
  }

  lemma PutKeepsKeyed(entries: seq<Entry>, e: Entry)
    requires Keyed(entries)
    ensures Keyed(Put(entries, e))
  {
  }

  lemma FindIs(entries: seq<Entry>, name: string, i: nat)
    requires Keyed(entries) && i < |entries| && SameName(entries[i].application, name)
    ensures Find(entries, name) == Some(entries[i])
  {
  }

  lemma FindAfterPut(entries: seq<Entry>, e: Entry, name: string)
    requires Keyed(entries)
    ensures Find(Put(entries, e), name) ==
      if e.application != "" && SameName(e.application, name) then Some(e) else Find(entries, name)
  {
    var after := Put(entries, e);
    PutKeepsKeyed(entries, e);
    if e.application != "" {
      var i := IndexFor(entries, e.application);
      assert after[i] == e;
      if SameName(e.application, name) {
        FindIs(after, name, i);
      } else {
        var k := IndexFor(entries, name);
        if k < |entries| {
          FindIs(after, name, k);
        } else {
          assert IndexFor(after, name) == |after|;
        }
      }
    }
  }

  function PutAll(es: seq<Entry>): seq<Entry> {
    if es == [] then [] else Put(PutAll(es[..|es| - 1]), es[|es| - 1])
  }

  // The last of the entries with this name.
  function LastPut(es: seq<Entry>, name: string): Option<Entry> {
    if es == [] then None
    else
      var e := es[|es| - 1];
      if e.application != "" && SameName(e.application, name) then Some(e)
      else LastPut(es[..|es| - 1], name)
  }

  // After any sequence of puts the names stay distinct up to case and find
  // returns what was put last under the name.
  lemma {:induction false} FindReturnsLastPut(es: seq<Entry>, name: string)
    ensures Keyed(PutAll(es)) && Find(PutAll(es), name) == LastPut(es, name)
  {
    if es != [] {
      FindReturnsLastPut(es[..|es| - 1], name);
      PutKeepsKeyed(PutAll(es[..|es| - 1]), es[|es| - 1]);
      FindAfterPut(PutAll(es[..|es| - 1]), es[|es| - 1], name);
    }
  }

  // ---- writing ----

  datatype Field = Architecture | Graphics | Audio | Input | Dotnet | Vcruntime | Rating | Issue

  function Key(f: Field): string {
    match f
    case Architecture => "architecture"
    case Graphics => "graphics"
    case Audio => "audio"
    case Input => "input"
    case Dotnet => "dotnet"
    case Vcruntime => "vcruntime"
    case Rating => "rating"
    case Issue => "issue"
  }

  function FieldLine(f: Field, value: string): string { Key(f) + "=" + value }

  function IssueLines(issues: seq<string>): (ls: seq<string>)
    ensures |ls| == |issues|
    ensures forall i | 0 <= i < |ls| :: ls[i] == FieldLine(Issue, issues[i])
  {
    seq(|issues|, i requires 0 <= i < |issues| => FieldLine(Issue, issues[i]))
  }

  function Section(application: string): string { "[" + application + "]" }

  function TextLines(e: Entry): seq<string> {
    [FieldLine(Architecture, e.architecture)] + ([FieldLine(Graphics, e.graphics)]
    + ([FieldLine(Audio, e.audio)] + [FieldLine(Input, e.input)]))
  }

  function NumberLines(e: Entry): seq<string> {
    [FieldLine(Dotnet, DecInt(e.dotnet))] + ([FieldLine(Vcruntime, DecInt(e.vcruntime))]
    + [FieldLine(Rating, DecInt(e.rating))])
  }

  function EntryLines(e: Entry): seq<string> {
    [Section(e.application)] + (TextLines(e) + NumberLines(e)) + IssueLines(e.issues) + [""]
  }

  function AllLines(entries: seq<Entry>): seq<string> {
    if entries == [] then [] else EntryLines(entries[0]) + AllLines(entries[1..])
  }

  const BANNER := "# cellar-compat-db 1"

  function Saved(entries: seq<Entry>): string {
    Unlines([BANNER] + AllLines(entries))
  }

  // ---- reading ----

  // What one fgets reads into a 512-byte buffer: up to a newline, or as much as fits.
  function PieceLength(s: string): (n: nat)
    requires s != ""
    ensures 0 < n <= |s|
  {
    Min(Min(IndexOf(s, '\n') + 1, LINE_BUFFER - 1), |s|)
  }

  function Pieces(s: string): seq<string>
    decreases |s|
  {
    if s == "" then [] else [s[..PieceLength(s)]] + Pieces(s[PieceLength(s)..])
  }

  function Joined(pieces: seq<string>): string {
    if pieces == [] then "" else pieces[0] + Joined(pieces[1..])
  }

  // Its only newline is its last character, and it ends there, or is full, or ends the file.
  predicate IsPiece(p: string, last: bool) {
    && 0 < |p| <= 511 && (forall k | 0 <= k < |p| - 1 :: p[k] != '\n')
    && (p[|p| - 1] == '\n' || |p| == 511 || last)
  }

  lemma FirstIsPiece(s: string)
    requires s != ""
    ensures IsPiece(s[..PieceLength(s)], PieceLength(s) == |s|)
  {
    var i := IndexOf(s, '\n');
    forall k | 0 <= k < i
      ensures s[k] != '\n'
    {
      assert s[..i][k] == s[k];
    }
  }

  // Nothing is lost.
  lemma {:induction false} PiecesJoin(s: string)
    ensures Joined(Pieces(s)) == s
    decreases |s|
  {
    if s != "" {
      var n := PieceLength(s);
      PiecesJoin(s[n..]);
      assert s == s[..n] + s[n..];
    }
  }

  // Every piece is as long as the rule allows.
  lemma {:induction false} PiecesAre(s: string)
    ensures forall i | 0 <= i < |Pieces(s)| :: IsPiece(Pieces(s)[i], i == |Pieces(s)| - 1)
    decreases |s|
  {
    if s != "" {
      var n := PieceLength(s);
      FirstIsPiece(s);
      PiecesAre(s[n..]);
    }
  }

  // The C string in the buffer, without a newline.
  function WithoutNewline(p: string): string { CText(p[..IndexOf(p, '\n')]) }

  // The lines the reading loop sees are the pieces without their newlines.
  lemma {:induction false} FgetsLinesAre(s: string)
    ensures |FgetsLines(s)| == |Pieces(s)|
    ensures forall i | 0 <= i < |Pieces(s)| :: FgetsLines(s)[i] == WithoutNewline(Pieces(s)[i])
    decreases |s|
  {
    if s != "" {
      var n := PieceLength(s);
      FgetsLinesAre(s[n..]);
      FirstLineOf(s);
    }
  }

  lemma FirstLineOf(s: string)
    requires s != ""
    ensures FgetsLines(s) == [WithoutNewline(s[..PieceLength(s)])] + FgetsLines(s[PieceLength(s)..])
  {
    var i, n := IndexOf(s, '\n'), PieceLength(s);
    if i < LINE_BUFFER - 1 {
      CutAtNewline(s, n, i);
      assert s[n..] == AfterLine(s);
    } else {
      CutAtNewline(s, n, n);
    }
  }

  lemma CutAtNewline(s: string, n: nat, i: nat)
    requires i <= n <= |s| && '\n' !in s[..i] && (i < n ==> s[i] == '\n')
    ensures s[..n][..IndexOf(s[..n], '\n')] == s[..i]
  {
    var p := s[..n];
    assert p[..i] == s[..i];
    if i < n {
      IndexOfIn(p, '\n', i);
    } else {
      var j := IndexOf(p, '\n');
      assert p == s[..i];
    }
  }

  // The lines fgets delivers into a 512-byte buffer, as the C strings they are without their
  // newlines.
  function FgetsLines(s: string): (ls: seq<string>)
    ensures forall l <- ls :: '\n' !in l && '\0' !in l
    decreases |s|
  {
    if s == "" then []
    else
      var i := IndexOf(s, '\n');
      if i < LINE_BUFFER - 1 then [CText(s[..i])] + FgetsLines(AfterLine(s))
      else [CText(s[..LINE_BUFFER - 1])] + FgetsLines(s[LINE_BUFFER - 1..])
  }

  function FieldOf(key: string): Option<Field> {
    if key == "architecture" then Some(Architecture)
    else if key == "graphics" then Some(Graphics)
    else if key == "audio" then Some(Audio)
    else if key == "input" then Some(Input)
    else if key == "dotnet" then Some(Dotnet)
    else if key == "vcruntime" then Some(Vcruntime)
    else if key == "rating" then Some(Rating)
    else if key == "issue" then Some(Issue)
    else None
  }

  function Assign(e: Entry, f: Field, v: string): Entry {
    match f
    case Architecture => e.(architecture := Clip(v, 16))
    case Graphics => e.(graphics := Clip(v, 32))
    case Audio => e.(audio := Clip(v, 32))
    case Input => e.(input := Clip(v, 32))
    case Dotnet => e.(dotnet := Atoi(v))
    case Vcruntime => e.(vcruntime := Atoi(v))
    case Rating => e.(rating := Atoi(v))
    case Issue => if |e.issues| < MAX_ISSUES then e.(issues := e.issues + [Clip(v, 160)]) else e
  }

  // The entries put so far, and the record being read, if any.
  datatype Reader = Reader(entries: seq<Entry>, current: Option<Entry>)
  {
    function Flush(): seq<Entry> {
      if current.Some? then Put(entries, current.value) else entries
    }
  }

  function ReadLine(r: Reader, line: string): Reader {
    if line == "" || line[0] == '#' then r
    else if line[0] == '[' then
      Reader(r.Flush(), Some(Blank(Clip(line[..IndexOf(line, ']')][1..], 128))))
    else
      var i := IndexOf(line, '=');
      if r.current.None? || i == |line| then r
      else
        match FieldOf(line[..i])
        case None => r
        case Some(f) => r.(current := Some(Assign(r.current.value, f, line[i + 1..])))
  }

  function ReadLines(r: Reader, lines: seq<string>): Reader
    decreases |lines|
  {
    if lines == [] then r else ReadLines(ReadLine(r, lines[0]), lines[1..])
  }

  function Loaded(text: string): seq<Entry> {
    ReadLines(Reader([], None), FgetsLines(text)).Flush()
  }

  // ---- the round trip ----

  lemma FieldOfKey(f: Field)
    ensures FieldOf(Key(f)) == Some(f) && '=' !in Key(f) && '\n' !in Key(f) && '\0' !in Key(f)
    ensures Key(f) != "" && Key(f)[0] != '#' && Key(f)[0] != '[' && |Key(f)| <= 12
  {
  }

  // A line with any other key is skipped.
  lemma OnlyKeys(key: string)
    ensures FieldOf(key).Some? ==> Key(FieldOf(key).value) == key
  {
  }

  lemma ReadFieldLine(r: Reader, f: Field, v: string)
    requires r.current.Some?
    ensures ReadLine(r, FieldLine(f, v)) == r.(current := Some(Assign(r.current.value, f, v)))
  {
    FieldOfKey(f);
    KeyLine(Key(f), '=', v);
    assert FieldLine(f, v) == Key(f) + ['='] + v;
    assert FieldLine(f, v)[0] == Key(f)[0];
  }

  lemma ReadSection(r: Reader, name: string)
    requires ']' !in name && |name| < 128
    ensures ReadLine(r, Section(name)) == Reader(r.Flush(), Some(Blank(name)))
  {
    var line := Section(name);
    assert line == ("[" + name) + [']'] + "";
    KeyLine("[" + name, ']', "");
    assert line[..|name| + 1][1..] == name;
  }

  lemma {:induction false} ReadLinesAppend(r: Reader, a: seq<string>, b: seq<string>)
    ensures ReadLines(r, a + b) == ReadLines(ReadLines(r, a), b)
    decreases |a|
  {
    if a == [] {
      assert a + b == b;
    } else {
      ReadLinesAppend(ReadLine(r, a[0]), a[1..], b);
      assert (a + b)[1..] == a[1..] + b;
    }
  }

  lemma {:induction false} ReadIssues(r: Reader, issues: seq<string>)
    requires r.current.Some? && |r.current.value.issues| + |issues| <= MAX_ISSUES
    requires forall t <- issues :: |t| < 160
    ensures var e := r.current.value;
      ReadLines(r, IssueLines(issues)) == r.(current := Some(e.(issues := e.issues + issues)))
    decreases |issues|
  {
    var e := r.current.value;
    if issues == [] {
      assert e.issues + issues == e.issues;
    } else {
      ReadFieldLine(r, Issue, issues[0]);
      assert IssueLines(issues)[1..] == IssueLines(issues[1..]);
      ReadIssues(r.(current := Some(e.(issues := e.issues + [issues[0]]))), issues[1..]);
      assert e.issues + [issues[0]] + issues[1..] == e.issues + issues;
    }
  }

  lemma ReadTwo(r: Reader, a: string, rest: seq<string>)
    ensures ReadLines(r, [a] + rest) == ReadLines(ReadLine(r, a), rest)
  {
    assert ([a] + rest)[1..] == rest;
  }

  lemma ReadTexts(es: seq<Entry>, e: Entry)
    requires e.Fits()
    ensures ReadLines(Reader(es, Some(Blank(e.application))), TextLines(e)) == Reader(es, Some(
      Entry(e.application, e.architecture, e.graphics, e.audio, e.input, 0, 0, 0, [])))
  {
    var b := Blank(e.application);
    var e1 := b.(architecture := e.architecture);
    var e2 := e1.(graphics := e.graphics);
    var e3 := e2.(audio := e.audio);
    var e4 := e3.(input := e.input);
    var t4 := [FieldLine(Input, e.input)];
    var t3 := [FieldLine(Audio, e.audio)] + t4;
    ReadOne(es, b, Architecture, e.architecture, e1, [FieldLine(Graphics, e.graphics)] + t3);
    ReadOne(es, e1, Graphics, e.graphics, e2, t3);
    ReadOne(es, e2, Audio, e.audio, e3, t4);
    ReadOne(es, e3, Input, e.input, e4, []);
    assert t4 + [] == t4;
  }

  lemma ReadNumbers(es: seq<Entry>, e: Entry)
    ensures var before := Entry(e.application, e.architecture, e.graphics, e.audio, e.input, 0, 0, 0, []);
      ReadLines(Reader(es, Some(before)), NumberLines(e)) == Reader(es, Some(e.(issues := [])))
  {
    AtoiDecInt(e.dotnet);
    AtoiDecInt(e.vcruntime);
    AtoiDecInt(e.rating);
    ReadDigitLines(es, e, DecInt(e.dotnet), DecInt(e.vcruntime), DecInt(e.rating));
  }

  lemma ReadDigitLines(es: seq<Entry>, e: Entry, dotnet: string, vcruntime: string, rating: string)
    requires Atoi(dotnet) == e.dotnet && Atoi(vcruntime) == e.vcruntime && Atoi(rating) == e.rating
    ensures var before := Entry(e.application, e.architecture, e.graphics, e.audio, e.input, 0, 0, 0, []);
      var lines := [FieldLine(Dotnet, dotnet), FieldLine(Vcruntime, vcruntime), FieldLine(Rating, rating)];
      ReadLines(Reader(es, Some(before)), lines) == Reader(es, Some(e.(issues := [])))
  {
    var before := Entry(e.application, e.architecture, e.graphics, e.audio, e.input, 0, 0, 0, []);
    var e5 := before.(dotnet := e.dotnet);
    var e6 := e5.(vcruntime := e.vcruntime);
    var t7 := [FieldLine(Rating, rating)];
    NumberAssigned(before, dotnet, e.dotnet);
    NumberAssigned(e5, vcruntime, e.vcruntime);
    NumberAssigned(e6, rating, e.rating);
    ReadOne(es, before, Dotnet, dotnet, e5, [FieldLine(Vcruntime, vcruntime)] + t7);
    ReadOne(es, e5, Vcruntime, vcruntime, e6, t7);
    ReadOne(es, e6, Rating, rating, e.(issues := []), []);
    assert t7 + [] == t7;
  }

  lemma NumberAssigned(was: Entry, digits: string, i: i32)
    requires Atoi(digits) == i
    ensures Assign(was, Dotnet, digits) == was.(dotnet := i)
    ensures Assign(was, Vcruntime, digits) == was.(vcruntime := i)
    ensures Assign(was, Rating, digits) == was.(rating := i)
  {
  }

  lemma ReadOne(es: seq<Entry>, was: Entry, f: Field, v: string, now: Entry, rest: seq<string>)
    requires now == Assign(was, f, v)
    ensures ReadLines(Reader(es, Some(was)), [FieldLine(f, v)] + rest)
         == ReadLines(Reader(es, Some(now)), rest)
  {
    ReadFieldLine(Reader(es, Some(was)), f, v);
    ReadTwo(Reader(es, Some(was)), FieldLine(f, v), rest);
  }

  // The lines of one entry flush what was read before and leave the entry as the current one.
  lemma ReadEntry(r: Reader, e: Entry, rest: seq<string>)
    requires e.Fits() && e.Clean()
    ensures ReadLines(r, EntryLines(e) + rest) == ReadLines(Reader(r.Flush(), Some(e)), rest)
  {
    var r1 := Reader(r.Flush(), Some(Blank(e.application)));
    var r2 := r1.(current := Some(e.(issues := [])));
    ReadSection(r, e.application);
    ReadTexts(r.Flush(), e);
    ReadNumbers(r.Flush(), e);
    ReadLinesAppend(r1, TextLines(e), NumberLines(e));
    ReadIssues(r2, e.issues);
    assert [] + e.issues == e.issues;
    ReadLinesAppend(r, EntryLines(e), rest);
    ReadLinesAppend(r, [Section(e.application)] + (TextLines(e) + NumberLines(e)) + IssueLines(e.issues), [""]);
    ReadLinesAppend(r, [Section(e.application)] + (TextLines(e) + NumberLines(e)), IssueLines(e.issues));
    ReadTwo(r, Section(e.application), TextLines(e) + NumberLines(e));
    ReadTwo(Reader(r.Flush(), Some(e)), "", []);
    assert [""] + [] == [""];
  }

  lemma PutAppends(done: seq<Entry>, e: Entry, rest: seq<Entry>)
    requires Keyed(done + ([e] + rest))
    ensures Put(done, e) == done + [e]
  {
    var all := done + ([e] + rest);
    assert all[|done|] == e && e in all;
    assert forall j | 0 <= j < |done| :: all[j] == done[j];
  }

  // Reading the lines of the remaining entries on top of the ones already read.
  lemma {:induction false} ReadAll(r: Reader, entries: seq<Entry>)
    requires forall e <- entries :: e.Fits() && e.Clean()
    requires Keyed(r.Flush() + entries)
    ensures ReadLines(r, AllLines(entries)).Flush() == r.Flush() + entries
    decreases |entries|
  {
    if entries == [] {
      assert r.Flush() + entries == r.Flush();
    } else {
      var e, rest := entries[0], entries[1..];
      ReadEntry(r, e, AllLines(rest));
      Regroup(r.Flush(), [e], rest);
      assert entries == [e] + rest;
      PutAppends(r.Flush(), e, rest);
      ReadAll(Reader(r.Flush(), Some(e)), rest);
    }
  }

  // Every line of a saved database fits the line buffer.
  lemma EntryLinesFit(e: Entry)
    requires e.Fits() && e.Clean()
    ensures AllFit(EntryLines(e))
  {
    TextLinesFit(e);
    NumberLinesFit(e);
    IssueLinesFit(e.issues);
    var front := [Section(e.application)];
    assert AllFit(front) && AllFit([""]);
    BothFit(TextLines(e), NumberLines(e));
    BothFit(front, TextLines(e) + NumberLines(e));
    BothFit(front + (TextLines(e) + NumberLines(e)), IssueLines(e.issues));
    BothFit(front + (TextLines(e) + NumberLines(e)) + IssueLines(e.issues), [""]);
  }

  predicate AllFit(lines: seq<string>) {
    forall l <- lines :: FitsLine(l)
  }

  lemma BothFit(a: seq<string>, b: seq<string>)
    requires AllFit(a) && AllFit(b)
    ensures AllFit(a + b)
  {
  }

  lemma TextLinesFit(e: Entry)
    requires e.Fits() && e.Clean()
    ensures AllFit(TextLines(e))
  {
    TextFits(Architecture, e.architecture);
    TextFits(Graphics, e.graphics);
    TextFits(Audio, e.audio);
    TextFits(Input, e.input);
  }

  lemma NumberLinesFit(e: Entry)
    ensures AllFit(NumberLines(e))
  {
    NumberFits(Dotnet, e.dotnet);
    NumberFits(Vcruntime, e.vcruntime);
    NumberFits(Rating, e.rating);
  }

  lemma {:induction false} IssueLinesFit(issues: seq<string>)
    requires forall t <- issues :: '\n' !in t && FitsField(t, 160)
    ensures AllFit(IssueLines(issues))
  {
    forall t <- issues
      ensures FitsLine(FieldLine(Issue, t))
    {
      TextFits(Issue, t);
    }
  }

  predicate FitsLine(l: string) { '\n' !in l && FitsField(l, LINE_BUFFER - 1) }

  lemma TextFits(f: Field, v: string)
    requires '\n' !in v && FitsField(v, 160)
    ensures FitsLine(FieldLine(f, v))
  {
    FieldOfKey(f);
  }

  lemma NumberFits(f: Field, i: i32)
    ensures FitsLine(FieldLine(f, DecInt(i)))
  {
    DecIntPlain(i);
    DecIntLength(i);
    TextFits(f, DecInt(i));
  }

  lemma {:induction false} AllLinesFit(entries: seq<Entry>)
    requires forall e <- entries :: e.Fits() && e.Clean()
    ensures AllFit(AllLines(entries))
  {
    if entries != [] {
      EntryLinesFit(entries[0]);
      AllLinesFit(entries[1..]);
    }
  }

  lemma {:induction false} FgetsOfUnlines(ls: seq<string>)
    requires AllFit(ls)
    ensures FgetsLines(Unlines(ls)) == ls
    decreases |ls|
  {
    if ls != [] {
      assert FitsLine(ls[0]);
      FirstLine(ls[0], Unlines(ls[1..]));
      FgetsOfUnlines(ls[1..]);
    }
  }

  lemma CleanRoundTrip(entries: seq<Entry>)
    requires Keyed(entries) && forall e <- entries :: e.Fits() && e.Clean()
    ensures Loaded(Saved(entries)) == entries
  {
    AllLinesFit(entries);
    BannerSkipped(Reader([], None));
    BothFit([BANNER], AllLines(entries));
    FgetsOfUnlines([BANNER] + AllLines(entries));
    ReadTwo(Reader([], None), BANNER, AllLines(entries));
    assert [] + entries == entries;
    ReadAll(Reader([], None), entries);
  }

  lemma BannerSkipped(r: Reader)
    ensures AllFit([BANNER]) && ReadLine(r, BANNER) == r
  {
  }

  ghost predicate CleanReader(r: Reader) {
    && (forall e <- r.entries :: e.Clean())
    && (r.current.Some? ==> r.current.value.Clean())
  }

  lemma {:induction false} ReadersAreClean(r: Reader, lines: seq<string>)
    requires CleanReader(r) && forall l <- lines :: '\n' !in l
    ensures CleanReader(ReadLines(r, lines))
    decreases |lines|
  {
    if lines != [] {
      ReadLineClean(r, lines[0]);
      ReadersAreClean(ReadLine(r, lines[0]), lines[1..]);
    }
  }

  lemma ReadLineClean(r: Reader, line: string)
    requires CleanReader(r) && '\n' !in line
    ensures CleanReader(ReadLine(r, line))
  {
    if line != "" && line[0] == '[' {
      var name := line[..IndexOf(line, ']')][1..];
      assert forall c <- name :: c in line && c != ']';
      assert Blank(Clip(name, 128)).Clean();
    } else if r.current.Some? {
      var i := IndexOf(line, '=');
      if i < |line| && FieldOf(line[..i]).Some? {
        AssignClean(r.current.value, FieldOf(line[..i]).value, line[i + 1..]);
      }
    }
  }

  lemma AssignClean(e: Entry, f: Field, v: string)
    requires e.Clean() && '\n' !in v
    ensures Assign(e, f, v).Clean()
  {
  }

  // Whatever text is read, no entry holds a newline and no name a bracket.
  lemma LoadedIsClean(text: string)
    ensures forall e <- Loaded(text) :: e.Clean()
  {
    ReadersAreClean(Reader([], None), FgetsLines(text));
  }

  // Whatever text is read, every string fits its field of cellar_db_entry_t, cut if need be.
  lemma LoadedFits(text: string)
    ensures forall e <- Loaded(text) :: e.Fits()
  {
    ReadersFit(Reader([], None), FgetsLines(text));
  }

  ghost predicate FitReader(r: Reader) {
    (forall e <- r.entries :: e.Fits()) && (r.current.Some? ==> r.current.value.Fits())
  }

  lemma {:induction false} ReadersFit(r: Reader, lines: seq<string>)
    requires FitReader(r) && forall l <- lines :: '\0' !in l
    ensures FitReader(ReadLines(r, lines))
    decreases |lines|
  {
    if lines != [] {
      ReadLineFits(r, lines[0]);
      ReadersFit(ReadLine(r, lines[0]), lines[1..]);
    }
  }

  lemma ReadLineFits(r: Reader, line: string)
    requires FitReader(r) && '\0' !in line
    ensures FitReader(ReadLine(r, line))
  {
    if line != "" && line[0] == '[' {
      ClipFits(line[..IndexOf(line, ']')][1..], 128);
    } else if r.current.Some? {
      var i := IndexOf(line, '=');
      if i < |line| && FieldOf(line[..i]).Some? {
        AssignFits(r.current.value, FieldOf(line[..i]).value, line[i + 1..]);
      }
    }
  }

  lemma ClipFits(s: string, cap: nat)
    requires cap > 0 && '\0' !in s
    ensures FitsField(Clip(s, cap), cap)
  {
  }

  lemma AssignFits(e: Entry, f: Field, v: string)
    requires e.Fits() && '\0' !in v
    ensures Assign(e, f, v).Fits()
  {
    ClipFits(v, 16);
    ClipFits(v, 32);
    ClipFits(v, 160);
  }

  // Opening what was saved rebuilds the same entries in the same order, if and only if every
  // entry is clean.
  lemma SaveOpenRoundTripIff(entries: seq<Entry>)
    requires Keyed(entries) && forall e <- entries :: e.Fits()
    ensures Loaded(Saved(entries)) == entries <==> forall e <- entries :: e.Clean()
  {
    if forall e <- entries :: e.Clean() {
      CleanRoundTrip(entries);
    } else {
      LoadedIsClean(Saved(entries));
    }
  }

  // ---- the database object ----

  class Db {
    var entries: array<Entry>  // the allocated capacity
    var count: nat
    var file: Option<string>

    ghost predicate Valid()
      reads this
    {
      count <= entries.Length
    }

    ghost function Table(): seq<Entry>
      requires Valid()
      reads this, entries
    {
      entries[..count]
    }

    twostate predicate Kept(before: array<Entry>)
      reads this
    {
      entries == before || fresh(entries)
    }

    // cellar_db_open
    constructor Open(file: Option<string>)
      ensures Valid() && fresh(entries) && this.file == file
      ensures Table() == if file.Some? then Loaded(file.value) else []
    {
      this.entries, this.count, this.file := new Entry[0], 0, file;
      new;
      if file.Some? {
        var lines := FgetsLines(file.value);
        var current: Option<Entry> := None;
        for i := 0 to |lines|
          invariant Valid() && fresh(entries) && this.file == file
          invariant ReadLines(Reader(Table(), current), lines[i..]) == ReadLines(Reader([], None), lines)
        {
          ReadTwo(Reader(Table(), current), lines[i], lines[i + 1..]);
          assert lines[i..] == [lines[i]] + lines[i + 1..];
          current := ReadOneLine(lines[i], current);
        }
        assert lines[|lines|..] == [];
        if current.Some? {
          var status := PutEntry(current.value);
        }
      }
    }

    // One round of the line loop.
    method ReadOneLine(line: string, current: Option<Entry>) returns (next: Option<Entry>)
      requires Valid()
      modifies this`entries, this`count, entries
      ensures Valid() && Kept(old(entries))
      ensures Reader(Table(), next) == ReadLine(Reader(old(Table()), current), line)
    {
      next := current;
      if line == "" || line[0] == '#' {
        return;
      }
      if line[0] == '[' {
        if current.Some? {
          var status := PutEntry(current.value);
        }
        return Some(Blank(Clip(line[..IndexOf(line, ']')][1..], 128)));
      }
      var eq := IndexOf(line, '=');
      if current.None? || eq == |line| {
        return;
      }
      var f := FieldOf(line[..eq]);
      if f.Some? {
        next := Some(Assign(current.value, f.value, line[eq + 1..]));
      }
    }

    // cellar_db_put; the array doubles from 8.
    method PutEntry(e: Entry) returns (status: Status)
      requires Valid()
      modifies this`entries, this`count, entries
      ensures Valid() && Kept(old(entries))
      ensures status == if e.application == "" then InvalidArgument else Ok
      ensures Table() == Put(old(Table()), e)
    {
      if e.application == "" {
        return InvalidArgument;
      }
      var i := Position(e.application);
      if i < count {
        entries[i] := e;
        return Ok;
      }
      if count == entries.Length {
        Grow();
      }
      entries[count] := e;
      count := count + 1;
      return Ok;
    }

    method Grow()
      requires Valid() && count == entries.Length
      modifies this`entries
      ensures Valid() && fresh(entries) && count < entries.Length && Table() == old(Table())
    {
      var grown := new Entry[if entries.Length == 0 then 8 else entries.Length * 2];
      for j := 0 to count
        invariant entries == old(entries)
        invariant forall k | 0 <= k < j :: grown[k] == entries[k]
      {
        grown[j] := entries[j];
      }
      entries := grown;
    }

    method Position(name: string) returns (i: nat)
      requires Valid()
      ensures i == IndexFor(Table(), name)
    {
      i := 0;
      while i < count
        invariant i <= count
        invariant IndexFor(Table(), name) == i + IndexFor(entries[i..count], name)
      {
        assert entries[i..count][1..] == entries[i + 1..count];
        if SameName(entries[i].application, name) {
          return;
        }
        i := i + 1;
      }
    }

    // cellar_db_find
    method FindEntry(name: string) returns (found: Option<Entry>)
      requires Valid()
      ensures found == Find(Table(), name)
    {
      var i := Position(name);
      return if i < count then Some(entries[i]) else None;
    }

    // cellar_db_save
    method Save() returns (status: Status)
      requires Valid()
      modifies this`file
      ensures status == Ok && file == Some(Saved(Table()))
    {
      var text := Unlines([BANNER]);
      ghost var table := Table();
      assert table[0..] == table;
      UnlinesAppend([BANNER], AllLines(table));
      for i := 0 to count
        invariant Table() == table && text + Unlines(AllLines(table[i..])) == Saved(table)
      {
        SavedStep(text, table, i);
        text := text + Unlines(EntryLines(entries[i]));
      }
      assert table[count..] == [] && text + "" == text;
      file := Some(text);
      return Ok;
    }
  }

  lemma SavedStep(text: string, table: seq<Entry>, i: nat)
    requires i < |table|
    ensures text + Unlines(AllLines(table[i..]))
         == text + Unlines(EntryLines(table[i])) + Unlines(AllLines(table[i + 1..]))
  {
    assert table[i..][1..] == table[i + 1..];
    UnlinesAppend(EntryLines(table[i]), AllLines(table[i + 1..]));
  }
}
