// The get and set laws of prefix.conf for files of any size. Reading a setting sees the
// first 2047 characters of the file and changing one the first 4095, so each law holds
// exactly when what it speaks of lies inside those windows.
module SettingsWindow {
  import opened Text
  import opened Settings
  import opened Words
  import opened Status

  const GET_WINDOW: nat := GET_BUFFER - 1
  const SET_WINDOW: nat := SET_BUFFER - 1

  // ---- lines cut by a window ----

  // The lines in the first n characters of the text that has these lines.
  function CutLines(lines: seq<string>, n: nat): (cut: seq<string>)
    decreases |lines|
  {
    if lines == [] || n == 0 then []
    else if n <= |lines[0]| then [lines[0][..n]]
    else [lines[0]] + CutLines(lines[1..], n - |lines[0]| - 1)
  }

  lemma {:induction false} LinesOfCut(lines: seq<string>, n: nat)
    requires forall l <- lines :: '\n' !in l
    requires n <= |Unlines(lines)|
    ensures Lines(Unlines(lines)[..n]) == CutLines(lines, n)
    decreases |lines|
  {
    if lines != [] && n > 0 {
      var l, rest := lines[0], Unlines(lines[1..]);
      if n <= |l| {
        assert l in lines;
        assert (l + "\n" + rest)[..n] == l[..n];
        OneLine(l[..n]);
      } else {
        var m := n - |l| - 1;
        LinesOfCut(lines[1..], m);
        assert (l + "\n" + rest)[..n] == l + "\n" + rest[..m];
        FirstLineOf(l, rest[..m]);
      }
    }
  }

  lemma OneLine(l: string)
    requires l != "" && '\n' !in l
    ensures Lines(l) == [l]
  {
    assert IndexOf(l, '\n') == |l|;
  }

  lemma FirstLineOf(line: string, rest: string)
    requires '\n' !in line
    ensures Lines(line + "\n" + rest) == [line] + Lines(rest)
  {
    FirstLine(line, rest);
  }

  lemma {:induction false} CutNothing(lines: seq<string>, n: nat)
    requires |Unlines(lines)| <= n
    ensures CutLines(lines, n) == lines
    decreases |lines|
  {
    if lines != [] {
      CutNothing(lines[1..], n - |lines[0]| - 1);
    }
  }

  // Reading what was written with these lines, through a buffer, sees the cut lines.
  lemma SeenCut(lines: seq<string>, buffer: nat)
    requires buffer > 0
    requires forall l <- lines :: '\n' !in l && '\0' !in l
    ensures Lines(Seen(Unlines(lines), buffer)) == CutLines(lines, buffer - 1)
  {
    CleanUnlines(lines);
    var text := Unlines(lines);
    if |text| < buffer {
      LinesOfUnlines(lines);
      CutNothing(lines, buffer - 1);
    } else {
      LinesOfCut(lines, buffer - 1);
      assert '\0' !in text[..buffer - 1];
    }
  }

  // ---- looking up through a window ----

  // Where the key's first line starts, or the end of the text when it has none.
  function Offset(lines: seq<string>, key: string): nat {
    if lines == [] || IsFor(lines[0], key) then 0
    else |lines[0]| + 1 + Offset(lines[1..], key)
  }

  // How much of a value at this offset a window of n characters has room for.
  function Room(n: nat, offset: nat, key: string): nat {
    if offset + |key| + 1 <= n then n - offset - |key| - 1 else 0
  }

  function Shown(lines: seq<string>, key: string, n: nat): string {
    match Lookup(lines, key)
    case None => ""
    case Some(v) => v[..Min(|v|, Room(n, Offset(lines, key), key))]
  }

  function ValueOr(v: Option<string>): string {
    match v
    case Some(s) => s
    case None => ""
  }

  lemma {:induction false} LookupCut(lines: seq<string>, key: string, n: nat)
    ensures ValueOr(Lookup(CutLines(lines, n), key)) == Shown(lines, key, n)
    decreases |lines|
  {
    if lines != [] && n > 0 {
      var l := lines[0];
      if n <= |l| {
        CutLine(l, key, n);
      } else {
        LookupCut(lines[1..], key, n - |l| - 1);
      }
    }
  }

  lemma CutLine(l: string, key: string, n: nat)
    requires 0 < n <= |l|
    ensures IsFor(l[..n], key) <==> IsFor(l, key) && |key| < n
    ensures IsFor(l[..n], key) ==> l[..n][|key| + 1..] == l[|key| + 1..][..n - |key| - 1]
  {
    if |key| < n {
      assert l[..n][..|key|] == l[..|key|];
    }
  }

  // ---- what set leaves in the file ----

  lemma SetWrites(text: string, key: string, value: string)
    requires GoodKey(key) && GoodValue(value) && FitsLine(key, value)
    ensures var after := SetLines(Lines(Seen(text, SET_BUFFER)), key, value);
      Set(text, key, value) == Unlines(after) && forall l <- after :: '\n' !in l && '\0' !in l
  {
    var lines := Lines(Seen(text, SET_BUFFER));
    SetIsSetLines(text, key, value);
    EditedLines(lines, key, value);
    LinesHaveNoNul(Seen(text, SET_BUFFER));
  }

  lemma GetSees(lines: seq<string>, key: string, cap: nat)
    requires forall l <- lines :: '\n' !in l && '\0' !in l
    ensures Get(Unlines(lines), key, cap) == Clip(Shown(lines, key, GET_WINDOW), cap)
  {
    SeenCut(lines, GET_BUFFER);
    LookupCut(lines, key, GET_WINDOW);
  }

  lemma {:induction false} OffsetOfSet(lines: seq<string>, key: string, value: string)
    ensures Offset(SetLines(lines, key, value), key) == Offset(lines, key)
    decreases |lines|
  {
    NewLineIsFor(key, value);
    if lines != [] && !IsFor(lines[0], key) {
      OffsetOfSet(lines[1..], key, value);
      assert SetLines(lines, key, value)[1..] == SetLines(lines[1..], key, value);
    }
  }

  // ---- get after set ----

  lemma ShownWhole(v: string, room: nat, cap: nat)
    ensures Clip(v[..Min(|v|, room)], cap) == Clip(v, cap) <==> |Clip(v, cap)| <= room
  {
    var shown := v[..Min(|v|, room)];
    if |Clip(v, cap)| <= room {
      assert Clip(shown, cap) == Clip(v, cap);
    } else {
      assert |Clip(shown, cap)| < |Clip(v, cap)|;
    }
  }

  // Get returns the value just set if and only if what of it fits the caller's buffer ends
  // inside the first 2047 characters.
  lemma GetAfterSetIff(text: string, key: string, value: string, cap: nat)
    requires GoodKey(key) && GoodValue(value) && FitsLine(key, value)
    ensures var lines, wanted := Lines(Seen(text, SET_BUFFER)), Clip(value, cap);
      Get(Set(text, key, value), key, cap) == wanted
      <==> wanted == "" || Offset(lines, key) + |key| + 1 + |wanted| <= GET_WINDOW
  {
    var lines := Lines(Seen(text, SET_BUFFER));
    var after := SetLines(lines, key, value);
    SetWrites(text, key, value);
    GetSees(after, key, cap);
    LookupSetLines(lines, key, value);
    OffsetOfSet(lines, key, value);
    ShownWhole(value, Room(GET_WINDOW, Offset(lines, key), key), cap);
  }

  // A key appended behind 2100 other characters is not found.
  lemma NewKeyBehindWindow()
    ensures var text := seq(2100, _ => 'x');
      Get(Set(text, "k", "v"), "k", 8) == "" && Clip("v", 8) == "v"
  {
    var text: string := seq(2100, _ => 'x');
    LongLine(text);
    var lines := Lines(Seen(text, SET_BUFFER));
    assert Offset([text], "k") == 2101;
    GetAfterSetIff(text, "k", "v", 8);
    SetWrites(text, "k", "v");
    GetSees(SetLines(lines, "k", "v"), "k", 8);
    LookupSetLines(lines, "k", "v");
    OffsetOfSet(lines, "k", "v");
  }

  lemma LongLine(text: string)
    requires 0 < |text| < SET_BUFFER && '\n' !in text && '\0' !in text
    ensures Lines(Seen(text, SET_BUFFER)) == [text]
  {
    OneLine(text);
  }

  // ---- get of another key after set ----

  lemma TextPrefix(s: string, n: nat)
    requires n <= |s|
    ensures CText(s[..n]) == CText(s)[..Min(n, |CText(s)|)]
  {
    var i := IndexOf(s, '\0');
    if i < n {
      assert s[..n][..i] == s[..i];
      IndexOfIn(s[..n], '\0', i);
    } else {
      assert '\0' !in s[..n] by { assert s[..n] == s[..i][..n]; }
    }
  }

  lemma UnlinesFirst(first: string, rest: seq<string>)
    ensures Unlines([first] + rest) == first + "\n" + Unlines(rest)
  {
    assert ([first] + rest)[1..] == rest;
  }

  lemma SplitAt(s: string, i: nat, c: char)
    requires i < |s| && s[i] == c
    ensures s == s[..i] + [c] + s[i + 1..]
  {
  }

  lemma {:induction false} UnlinesOfLines(s: string)
    ensures Unlines(Lines(s)) == s || Unlines(Lines(s)) == s + "\n"
    decreases |s|
  {
    if s != "" {
      LinesUnfold(s);
      var i, rest := IndexOf(s, '\n'), AfterLine(s);
      UnlinesFirst(s[..i], Lines(rest));
      if i < |s| {
        SplitAt(s, i, '\n');
        UnlinesOfLines(rest);
        assert s[..i] + "\n" + (rest + "\n") == s[..i] + "\n" + rest + "\n";
      } else {
        assert s[..i] == s;
      }
    }
  }

  // What get reads is what set reads, cut to the smaller window.
  lemma GetReadsLess(text: string)
    ensures Lines(Seen(text, GET_BUFFER)) == CutLines(Lines(Seen(text, SET_BUFFER)), GET_WINDOW)
  {
    var s := Seen(text, SET_BUFFER);
    var clipped := Clip(text, SET_BUFFER);
    var n := Min(|clipped|, GET_WINDOW);
    assert Clip(text, GET_BUFFER) == clipped[..n];
    TextPrefix(clipped, n);
    var seen := Seen(text, GET_BUFFER);
    if |s| <= GET_WINDOW {
      assert seen == s;
      CutAll(s, GET_WINDOW);
    } else {
      UnlinesOfLines(s);
      assert seen == s[..GET_WINDOW] == Unlines(Lines(s))[..GET_WINDOW];
      LinesOfCut(Lines(s), GET_WINDOW);
    }
  }

  lemma {:induction false} CutAll(s: string, n: nat)
    requires |s| <= n
    ensures CutLines(Lines(s), n) == Lines(s)
    decreases |s|
  {
    if s != "" {
      LinesUnfold(s);
      if IndexOf(s, '\n') < |s| {
        CutAll(AfterLine(s), n - IndexOf(s, '\n') - 1);
      }
    }
  }

  // ---- the other keys ----

  lemma ShownSame(v: string, room1: nat, room2: nat, cap: nat)
    ensures Clip(v[..Min(|v|, room1)], cap) == Clip(v[..Min(|v|, room2)], cap)
      <==> Min(room1, |Clip(v, cap)|) == Min(room2, |Clip(v, cap)|)
  {
    ClipShown(v, room1, cap);
    ClipShown(v, room2, cap);
    assert v[..Min(room1, |Clip(v, cap)|)] == v[..Min(room2, |Clip(v, cap)|)]
      <==> Min(room1, |Clip(v, cap)|) == Min(room2, |Clip(v, cap)|);
  }

  lemma ClipShown(v: string, room: nat, cap: nat)
    ensures |Clip(v, cap)| <= |v|
    ensures Clip(v[..Min(|v|, room)], cap) == v[..Min(room, |Clip(v, cap)|)]
  {
  }

  // Set leaves get of another key unchanged if and only if the key has no line, or the
  // windows end at the same place of its value before and after, or both reach as much of
  // the value as the caller's buffer holds.
  lemma GetOtherAfterSetIff(text: string, key: string, value: string, other: string, cap: nat)
    requires GoodKey(key) && GoodValue(value) && FitsLine(key, value)
    requires '=' !in other && other != key
    ensures var lines := Lines(Seen(text, SET_BUFFER));
      var before := Room(GET_WINDOW, Offset(lines, other), other);
      var after := Room(GET_WINDOW, Offset(SetLines(lines, key, value), other), other);
      Get(Set(text, key, value), other, cap) == Get(text, other, cap)
      <==> match Lookup(lines, other)
           case None => true
           case Some(v) => before == after || |Clip(v, cap)| <= Min(before, after)
  {
    var lines := Lines(Seen(text, SET_BUFFER));
    SetWrites(text, key, value);
    GetSees(SetLines(lines, key, value), other, cap);
    LookupOtherKey(lines, key, value, other);
    GetReadsLess(text);
    LookupCut(lines, other, GET_WINDOW);
    var found := Lookup(lines, other);
    if found.Some? {
      ShownSame(found.value, Room(GET_WINDOW, Offset(lines, other), other),
                Room(GET_WINDOW, Offset(SetLines(lines, key, value), other), other), cap);
    }
  }

  // A shorter value in front pulls another key's value into the window.
  lemma OtherKeyPulledIn(long: string, key: string, value: string, line: string, other: string)
    requires GoodKey(key) && GoodValue(value) && |key| + |value| <= 500
    requires GoodValue(long) && IsFor(long, key) && !IsFor(long, other) && 2047 <= |long| <= 3000
    requires GoodValue(line) && IsFor(line, other) && !IsFor(line, key) && |line| <= 500
    requires '=' !in other && key != other
    ensures var text, v := long + "\n" + line, line[|other| + 1..];
      Get(text, other, 500) == "" && Get(Set(text, key, value), other, 500) == v
  {
    var text := long + "\n" + line;
    TwoLineText(long, line);
    BehindLongLine(long, line, other);
    FirstEdited(long, line, key, value);
    SetWrites(text, key, value);
    NotForOther(key, value, other);
    BehindShortLine(key + "=" + value, line, other);
  }

  lemma NotForOther(key: string, value: string, other: string)
    requires '=' !in key && '=' !in other && key != other
    ensures !IsFor(key + "=" + value, other)
  {
    NewLineIsFor(key, value);
    if IsFor(key + "=" + value, other) {
      OneKeyPerLine(key + "=" + value, key, other);
    }
  }

  lemma TwoLineText(a: string, b: string)
    requires GoodValue(a) && GoodValue(b) && b != "" && |a| + |b| + 2 < SET_BUFFER
    ensures Lines(Seen(a + "\n" + b, SET_BUFFER)) == [a] + [b]
  {
    FirstLineOf(a, b);
    OneLine(b);
    assert '\0' !in a + "\n" + b;
  }

  lemma BehindLongLine(long: string, line: string, other: string)
    requires GoodValue(long) && !IsFor(long, other) && GET_WINDOW <= |long| <= 3000
    requires GoodValue(line) && IsFor(line, other) && |line| <= 500
    ensures Get(long + "\n" + line, other, 500) == ""
  {
    TwoLineText(long, line);
    GetReadsLess(long + "\n" + line);
    SecondShown(long, line, other);
  }

  lemma BehindShortLine(short: string, line: string, other: string)
    requires GoodValue(short) && !IsFor(short, other) && |short| <= 501
    requires GoodValue(line) && IsFor(line, other) && |line| <= 500
    ensures Get(Unlines([short] + [line]), other, 500) == line[|other| + 1..]
  {
    var lines := [short] + [line];
    GetSees(lines, other, 500);
    SecondShown(short, line, other);
  }

  lemma FirstEdited(a: string, c: string, key: string, value: string)
    requires IsFor(a, key) && !IsFor(c, key)
    ensures SetLines([a] + [c], key, value) == [key + "=" + value] + [c]
  {
    var lines := [a] + [c];
    assert lines[1..] == [c] && [c][1..] == [];
    assert Edited([c], key, value) == [c];
  }

  lemma SecondShown(a: string, c: string, key: string)
    requires !IsFor(a, key) && IsFor(c, key)
    ensures var lines := [a] + [c];
      && Offset(lines, key) == |a| + 1 && Lookup(lines, key) == Some(c[|key| + 1..])
      && ValueOr(Lookup(CutLines(lines, GET_WINDOW), key)) == Shown(lines, key, GET_WINDOW)
  {
    var lines := [a] + [c];
    assert lines[1..] == [c];
    LookupCut(lines, key, GET_WINDOW);
  }

  // ---- setting twice ----

  // Where the last line starts.
  function LastStart(lines: seq<string>): nat
    requires lines != []
  {
    |Unlines(lines[..|lines| - 1])|
  }

  // A window sees enough of the last line: past the key's '=' when the line is to be
  // replaced, and all its characters otherwise.
  predicate LastSeen(lines: seq<string>, key: string, n: nat)
    requires lines != []
  {
    var start, last := LastStart(lines), lines[|lines| - 1];
    start < n && if IsFor(last, key) then start + |key| < n else start + |last| <= n
  }

  // The window ends right where the last line starts, that line being the key's only one;
  // the newline before it may be cut off too unless it ends an empty line.
  predicate OnlyLastUnseen(lines: seq<string>, key: string, n: nat)
    requires lines != []
  {
    var start := LastStart(lines);
    && Offset(lines, key) == start
    && (n == start || (n + 1 == start && lines[|lines| - 2] != ""))
  }

  lemma LastStartStep(lines: seq<string>)
    requires |lines| > 1
    ensures LastStart(lines) == |lines[0]| + 1 + LastStart(lines[1..])
  {
    var front := lines[..|lines| - 1];
    assert front[1..] == lines[1..][..|lines| - 2];
  }

  lemma {:induction false} EditedCutIff(lines: seq<string>, key: string, value: string, n: nat)
    ensures Edited(CutLines(lines, n), key, value) == Edited(lines, key, value)
      <==> lines == [] || LastSeen(lines, key, n)
    decreases |lines|
  {
    if |lines| == 1 {
      assert lines == [lines[0]] && lines[..0] == [];
      LastCut(lines[0], key, value, n);
    } else if lines != [] {
      LastStartStep(lines);
      if n > |lines[0]| {
        EditedCutIff(lines[1..], key, value, n - |lines[0]| - 1);
        HeadKept(lines, key, value, n);
      } else {
        FewLines(lines, n);
        EditedLines(lines, key, value);
        EditedLines(CutLines(lines, n), key, value);
      }
    }
  }

  lemma FewLines(lines: seq<string>, n: nat)
    requires lines != [] && n <= |lines[0]|
    ensures |CutLines(lines, n)| <= 1
  {
  }

  lemma LastCut(l: string, key: string, value: string, n: nat)
    ensures Edited(CutLines([l], n), key, value) == Edited([l], key, value)
      <==> 0 < n && if IsFor(l, key) then |key| < n else |l| <= n
  {
    OneEdited(l, key, value);
    if 0 < n <= |l| {
      var cut := l[..n];
      CutLine(l, key, n);
      OneEdited(cut, key, value);
      assert CutLines([l], n) == [cut];
      if n <= |key| {
        assert |cut| < |key + "=" + value|;
      }
      assert n == |l| ==> cut == l;
      assert n < |l| ==> |cut| < |l|;
    } else if n > |l| {
      assert CutLines([l], n) == [l] + CutLines([], n - |l| - 1);
    }
  }

  lemma OneEdited(l: string, key: string, value: string)
    ensures Edited([l], key, value) == [if IsFor(l, key) then key + "=" + value else l]
    ensures Edited([], key, value) == []
  {
    assert [l][1..] == [];
  }

  lemma HeadKept(lines: seq<string>, key: string, value: string, n: nat)
    requires lines != [] && n > |lines[0]|
    ensures var rest := CutLines(lines[1..], n - |lines[0]| - 1);
      Edited(CutLines(lines, n), key, value) == Edited(lines, key, value)
      <==> Edited(rest, key, value) == Edited(lines[1..], key, value)
  {
    var rest := CutLines(lines[1..], n - |lines[0]| - 1);
    var cut := CutLines(lines, n);
    assert cut[1..] == rest && cut[0] == lines[0];
    assert Edited(cut, key, value)[1..] == Edited(rest, key, value);
    assert Edited(lines, key, value)[1..] == Edited(lines[1..], key, value);
  }

  // Setting the key in the cut lines, when it has a line in all of them.
  lemma {:induction false} SetCutIff(lines: seq<string>, key: string, value: string, n: nat)
    requires Lookup(lines, key).Some?
    ensures SetLines(CutLines(lines, n), key, value) == Edited(lines, key, value)
      <==> LastSeen(lines, key, n) || OnlyLastUnseen(lines, key, n)
    decreases |lines|
  {
    var l, assign := lines[0], key + "=" + value;
    NewLineIsFor(key, value);
    EditedLines(lines, key, value);
    EditedLines(CutLines(lines, n), key, value);
    if |lines| > 1 {
      LastStartStep(lines);
    }
    if n == 0 {
      assert lines[..0] == [];
      NothingSeen(lines, key, value);
    } else if n <= |l| {
      assert lines[..0] == [];
      FirstLineCut(lines, key, value, n);
    } else if IsFor(l, key) {
      EditedCutIff(lines, key, value, n);
      assert SetLines(CutLines(lines, n), key, value) == Edited(CutLines(lines, n), key, value);
    } else {
      SetCutIff(lines[1..], key, value, n - |l| - 1);
      SetHeadKept(lines, key, value, n);
    }
  }

  lemma NothingSeen(lines: seq<string>, key: string, value: string)
    requires lines != []
    ensures SetLines([], key, value) == Edited(lines, key, value) <==> |lines| == 1 && IsFor(lines[0], key)
  {
    NewLineIsFor(key, value);
    EditedLines(lines, key, value);
    if |lines| == 1 {
      assert lines == [lines[0]];
      OneEdited(lines[0], key, value);
    }
    assert SetLines([], key, value) == [key + "=" + value];
  }

  lemma FirstLineCut(lines: seq<string>, key: string, value: string, n: nat)
    requires lines != [] && 0 < n <= |lines[0]| && Lookup(lines, key).Some?
    ensures SetLines(CutLines(lines, n), key, value) == Edited(lines, key, value)
      <==> if IsFor(lines[0], key) then |lines| == 1 && |key| < n
           else |lines| == 2 && n == |lines[0]|
  {
    var l, assign := lines[0], key + "=" + value;
    var cut := l[..n];
    NewLineIsFor(key, value);
    CutLine(l, key, n);
    OneEdited(cut, key, value);
    EditedLines(lines, key, value);
    assert CutLines(lines, n) == [cut];
    assert Lookup([cut], key).Some? <==> IsFor(cut, key) by { assert [cut][1..] == []; }
    if IsFor(cut, key) {
      assert SetLines([cut], key, value) == [assign];
      if |lines| == 1 {
        assert lines == [l];
        OneEdited(l, key, value);
      }
    } else {
      assert SetLines([cut], key, value) == [cut] + [assign];
      TwoLines(lines, key, value, cut);
    }
  }

  lemma TwoEdited(a: string, b: string, key: string, value: string)
    ensures Edited([a] + [b], key, value) == Edited([a], key, value) + Edited([b], key, value)
    ensures Lookup([a] + [b], key).Some? <==> IsFor(a, key) || IsFor(b, key)
  {
    EditedAppend([a], [b], key, value);
    var lines := [a] + [b];
    assert lines[0] == a && lines[1..] == [b] && [b][1..] == [];
    assert Lookup([b], key).Some? <==> IsFor(b, key) by { assert Lookup([b][1..], key).None?; }
  }

  lemma TwoLines(lines: seq<string>, key: string, value: string, cut: string)
    requires lines != [] && Lookup(lines, key).Some? && !IsFor(cut, key)
    ensures [cut] + [key + "=" + value] == Edited(lines, key, value)
      <==> |lines| == 2 && !IsFor(lines[0], key) && cut == lines[0]
  {
    EditedLines(lines, key, value);
    if |lines| == 2 {
      assert lines == [lines[0]] + [lines[1]];
      TwoEdited(lines[0], lines[1], key, value);
      OneEdited(lines[0], key, value);
      OneEdited(lines[1], key, value);
      NewLineIsFor(key, value);
      TwoEqual(cut, key + "=" + value, Edited([lines[0]], key, value)[0], Edited([lines[1]], key, value)[0]);
    }
  }

  lemma TwoEqual(a: string, b: string, c: string, d: string)
    ensures [a] + [b] == [c] + [d] <==> a == c && b == d
  {
    assert ([a] + [b])[0] == a && ([a] + [b])[1] == b && ([c] + [d])[0] == c && ([c] + [d])[1] == d;
  }

  lemma SetHeadKept(lines: seq<string>, key: string, value: string, n: nat)
    requires lines != [] && n > |lines[0]| && !IsFor(lines[0], key)
    ensures var rest := CutLines(lines[1..], n - |lines[0]| - 1);
      SetLines(CutLines(lines, n), key, value) == Edited(lines, key, value)
      <==> SetLines(rest, key, value) == Edited(lines[1..], key, value)
  {
    var rest := CutLines(lines[1..], n - |lines[0]| - 1);
    var cut := CutLines(lines, n);
    assert cut[1..] == rest && cut[0] == lines[0];
    assert SetLines(cut, key, value)[1..] == SetLines(rest, key, value);
    assert Edited(lines, key, value)[1..] == Edited(lines[1..], key, value);
  }

  lemma UnlinesEqual(a: seq<string>, b: seq<string>)
    requires (forall l <- a :: '\n' !in l) && (forall l <- b :: '\n' !in l)
    ensures Unlines(a) == Unlines(b) <==> a == b
  {
    LinesOfUnlines(a);
    LinesOfUnlines(b);
  }

  // Two sets of one key leave the file of the last one if and only if the second one reads
  // the first one's file up to its last line far enough.
  lemma SetTwiceIff(text: string, key: string, v1: string, v2: string)
    requires GoodKey(key) && GoodValue(v1) && GoodValue(v2)
    requires FitsLine(key, v1) && FitsLine(key, v2)
    ensures var once := SetLines(Lines(Seen(text, SET_BUFFER)), key, v1);
      && once != []
      && (Set(Set(text, key, v1), key, v2) == Set(text, key, v2)
          <==> LastSeen(once, key, SET_WINDOW) || OnlyLastUnseen(once, key, SET_WINDOW))
  {
    var lines := Lines(Seen(text, SET_BUFFER));
    var once := SetLines(lines, key, v1);
    SetWrites(text, key, v1);
    SetWrites(text, key, v2);
    SeenCut(once, SET_BUFFER);
    SetWrites(Set(text, key, v1), key, v2);
    UnlinesEqual(SetLines(CutLines(once, SET_WINDOW), key, v2), SetLines(lines, key, v2));
    SetLinesTwice(lines, key, v1, v2);
    LookupSetLines(lines, key, v1);
    SetCutIff(once, key, v2, SET_WINDOW);
  }

  // A file that fits the window is such a file.
  lemma SmallIsSeen(lines: seq<string>, key: string)
    requires lines != [] && |Unlines(lines)| <= SET_WINDOW
    ensures LastSeen(lines, key, SET_WINDOW)
  {
    var front, last := lines[..|lines| - 1], lines[|lines| - 1];
    assert lines == front + [last];
    UnlinesAppend(front, [last]);
    assert Unlines([last]) == last + "\n";
  }

  // A long line behind the key's, pushed past the window by the first value, is cut off by
  // the second set.
  lemma SecondSetTruncates(key: string, v1: string, v2: string, pad: string)
    requires GoodKey(key) && GoodValue(v1) && GoodValue(v2) && GoodValue(pad)
    requires 100 <= |key| + |v1| <= 500 && FitsLine(key, v2)
    requires !IsFor(pad, key) && |pad| + |key| + 3 < SET_BUFFER && |pad| >= 4000
    ensures var text := key + "=" + "\n" + pad;
      Set(Set(text, key, v1), key, v2) != Set(text, key, v2)
  {
    var line := key + "=";
    var once := [key + "=" + v1] + [pad];
    NewLineIsFor(key, "");
    assert line == key + "=" + "";
    TwoLineText(line, pad);
    FirstEdited(line, pad, key, v1);
    NewLineIsFor(key, v1);
    assert once[..1] == [key + "=" + v1];
    OneUnlined(key + "=" + v1);
    SetTwiceIff(line + "\n" + pad, key, v1, v2);
  }

  lemma OneUnlined(l: string)
    ensures Unlines([l]) == l + "\n"
  {
    assert [l][1..] == [];
  }
}
