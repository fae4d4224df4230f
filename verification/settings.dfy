// The key=value settings of a bottle's prefix.conf, read and edited as text.
module Settings {
  import opened Status
  import opened Text

  const GET_BUFFER: nat := 2048
  const SET_BUFFER: nat := 4096
  const LINE_BUFFER: nat := 520

  predicate IsFor(line: string, key: string) {
    |line| > |key| && line[..|key|] == key && line[|key|] == '='
  }

  // The value of the first line for the key.
  function Lookup(lines: seq<string>, key: string): Option<string> {
    if lines == [] then None
    else if IsFor(lines[0], key) then Some(lines[0][|key| + 1..])
    else Lookup(lines[1..], key)
  }

  // What a buffer of the given size sees of the file.
  function Seen(text: string, buffer: nat): string {
    CText(Clip(text, buffer))
  }

  function Get(text: string, key: string, cap: nat): string {
    match Lookup(Lines(Seen(text, GET_BUFFER)), key)
    case Some(v) => Clip(v, cap)
    case None => ""
  }

  function NewLine(key: string, value: string): string {
    Clip(key + "=" + value + "\n", LINE_BUFFER)
  }

  // The file rewritten line by line, with newLine in place of every line for the key.
  function Rewritten(lines: seq<string>, key: string, newLine: string): string {
    if lines == [] then ""
    else (if IsFor(lines[0], key) then newLine else lines[0] + "\n")
         + Rewritten(lines[1..], key, newLine)
  }

  function Set(text: string, key: string, value: string): string {
    var lines := Lines(Seen(text, SET_BUFFER));
    var newLine := NewLine(key, value);
    Rewritten(lines, key, newLine) + if Lookup(lines, key).None? then newLine else ""
  }

  // ---- the laws ----

  predicate GoodKey(key: string) {
    key != "" && '=' !in key && '\n' !in key && '\0' !in key
  }

  predicate GoodValue(value: string) {
    '\n' !in value && '\0' !in value
  }

  // The assignment fits the line buffer with its newline.
  predicate FitsLine(key: string, value: string) {
    |key| + 1 + |value| + 1 < LINE_BUFFER
  }

  // The same edit on lines.
  function Edited(lines: seq<string>, key: string, value: string): seq<string> {
    if lines == [] then []
    else [if IsFor(lines[0], key) then key + "=" + value else lines[0]]
         + Edited(lines[1..], key, value)
  }

  function SetLines(lines: seq<string>, key: string, value: string): seq<string> {
    Edited(lines, key, value) + if Lookup(lines, key).None? then [key + "=" + value] else []
  }

  lemma {:induction false} RewrittenIsEdited(lines: seq<string>, key: string, value: string)
    ensures Rewritten(lines, key, key + "=" + value + "\n") == Unlines(Edited(lines, key, value))
  {
    if lines != [] {
      RewrittenIsEdited(lines[1..], key, value);
    }
  }

  lemma SetIsSetLines(text: string, key: string, value: string)
    requires FitsLine(key, value)
    ensures Set(text, key, value) == Unlines(SetLines(Lines(Seen(text, SET_BUFFER)), key, value))
  {
    var lines := Lines(Seen(text, SET_BUFFER));
    RewrittenIsEdited(lines, key, value);
    UnlinesAppend(Edited(lines, key, value), [key + "=" + value]);
    assert Unlines([key + "=" + value]) == key + "=" + value + "\n";
    assert Edited(lines, key, value) + [] == Edited(lines, key, value);
  }

  lemma {:induction false} CleanUnlines(lines: seq<string>)
    requires forall l <- lines :: '\0' !in l
    ensures '\0' !in Unlines(lines)
  {
    if lines != [] {
      CleanUnlines(lines[1..]);
    }
  }

  lemma {:induction false} LinesHaveNoNul(s: string)
    requires '\0' !in s
    ensures forall l <- Lines(s) :: '\0' !in l
    decreases |s|
  {
    if s != "" && IndexOf(s, '\n') < |s| {
      LinesHaveNoNul(s[IndexOf(s, '\n') + 1..]);
    }
  }

  lemma {:induction false} EditedLines(lines: seq<string>, key: string, value: string)
    ensures |Edited(lines, key, value)| == |lines|
    ensures forall l <- Edited(lines, key, value) :: l in lines || l == key + "=" + value
  {
    if lines != [] {
      EditedLines(lines[1..], key, value);
    }
  }

  lemma NewLineIsFor(key: string, value: string)
    ensures IsFor(key + "=" + value, key) && (key + "=" + value)[|key| + 1..] == value
  {
    assert (key + "=" + value)[..|key|] == key;
  }

  // One line assigns at most one '='-free key.
  lemma OneKeyPerLine(line: string, k1: string, k2: string)
    requires '=' !in k1 && '=' !in k2 && IsFor(line, k1) && IsFor(line, k2)
    ensures k1 == k2
  {
  }

  lemma {:induction false} LookupSetLines(lines: seq<string>, key: string, value: string)
    ensures Lookup(SetLines(lines, key, value), key) == Some(value)
    decreases |lines|
  {
    NewLineIsFor(key, value);
    if lines != [] {
      var after := SetLines(lines, key, value);
      if !IsFor(lines[0], key) {
        LookupSetLines(lines[1..], key, value);
        assert after[1..] == SetLines(lines[1..], key, value);
      }
    }
  }

  lemma {:induction false} LookupOtherKey(lines: seq<string>, key: string, value: string, other: string)
    requires '=' !in key && '=' !in other && key != other
    ensures Lookup(SetLines(lines, key, value), other) == Lookup(lines, other)
    decreases |lines|
  {
    var assign := key + "=" + value;
    NewLineIsFor(key, value);
    if IsFor(assign, other) {
      OneKeyPerLine(assign, key, other);
    }
    if lines != [] {
      var after := SetLines(lines, key, value);
      if IsFor(lines[0], key) {
        if IsFor(lines[0], other) {
          OneKeyPerLine(lines[0], key, other);
        }
        LookupOtherEdited(lines[1..], key, value, other);
        assert after[1..] == Edited(lines[1..], key, value);
      } else {
        LookupOtherKey(lines[1..], key, value, other);
        assert after[1..] == SetLines(lines[1..], key, value);
      }
    }
  }

  lemma {:induction false} LookupOtherEdited(lines: seq<string>, key: string, value: string, other: string)
    requires '=' !in key && '=' !in other && key != other
    ensures Lookup(Edited(lines, key, value), other) == Lookup(lines, other)
    decreases |lines|
  {
    var assign := key + "=" + value;
    NewLineIsFor(key, value);
    if IsFor(assign, other) {
      OneKeyPerLine(assign, key, other);
    }
    if lines != [] {
      if IsFor(lines[0], key) && IsFor(lines[0], other) {
        OneKeyPerLine(lines[0], key, other);
      }
      LookupOtherEdited(lines[1..], key, value, other);
    }
  }

  lemma {:induction false} EditedTwice(lines: seq<string>, key: string, v1: string, v2: string)
    ensures Edited(Edited(lines, key, v1), key, v2) == Edited(lines, key, v2)
    decreases |lines|
  {
    NewLineIsFor(key, v1);
    if lines != [] {
      EditedTwice(lines[1..], key, v1, v2);
      assert Edited(lines, key, v1)[1..] == Edited(lines[1..], key, v1);
    }
  }

  lemma {:induction false} EditedAppend(a: seq<string>, b: seq<string>, key: string, value: string)
    ensures Edited(a + b, key, value) == Edited(a, key, value) + Edited(b, key, value)
    decreases |a|
  {
    if a == [] {
      assert a + b == b;
    } else {
      EditedAppend(a[1..], b, key, value);
      assert (a + b)[1..] == a[1..] + b && (a + b)[0] == a[0];
    }
  }

  lemma SetLinesTwice(lines: seq<string>, key: string, v1: string, v2: string)
    ensures SetLines(SetLines(lines, key, v1), key, v2) == SetLines(lines, key, v2)
  {
    LookupSetLines(lines, key, v1);
    EditedTwice(lines, key, v1, v2);
    NewLineIsFor(key, v1);
    var added := if Lookup(lines, key).None? then [key + "=" + v1] else [];
    EditedAppend(Edited(lines, key, v1), added, key, v2);
    assert Edited([key + "=" + v1], key, v2) == [key + "=" + v2];
  }

  lemma RewrittenUnfold(out: string, p: string, key: string, newLine: string)
    requires p != ""
    ensures var line := p[..IndexOf(p, '\n')];
      && out + Rewritten(Lines(p), key, newLine)
         == (out + if IsFor(line, key) then newLine else line + "\n")
            + Rewritten(Lines(AfterLine(p)), key, newLine)
      && (Lookup(Lines(p), key).Some? <==> IsFor(line, key) || Lookup(Lines(AfterLine(p)), key).Some?)
  {
    LinesUnfold(p);
  }

  // ---- the file operations ----

  class ConfFile {
    var text: string

    constructor (text: string)
      ensures this.text == text
    {
      this.text := text;
    }

    // cellar_prefix_get_setting on an existing bottle.
    method GetSetting(key: string, cap: nat) returns (status: Status, out: string)
      ensures status == if cap == 0 then InvalidArgument else Ok
      ensures status == Ok ==> out == Get(text, key, cap)
    {
      if cap == 0 {
        return InvalidArgument, "";
      }
      var buf := Seen(text, GET_BUFFER);
      var p := buf;
      while p != ""
        invariant Lookup(Lines(buf), key) == Lookup(Lines(p), key)
        decreases |p|
      {
        LinesUnfold(p);
        var len := IndexOf(p, '\n');
        if IsFor(p[..len], key) {
          return Ok, Clip(p[..len][|key| + 1..], cap);
        }
        p := AfterLine(p);
      }
      return Ok, "";
    }

    // cellar_prefix_set_setting on an existing bottle.
    method SetSetting(key: string, value: string) returns (status: Status)
      modifies this
      ensures status == if key == "" then InvalidArgument else Ok
      ensures text == if key == "" then old(text) else Set(old(text), key, value)
    {
      if key == "" {
        return InvalidArgument;
      }
      var buf := Seen(text, SET_BUFFER);
      var newLine := NewLine(key, value);
      var out, found := Rewrite(buf, key, newLine);
      if !found {
        out := out + newLine;
      }
      text := out;
      return Ok;
    }
  }

  // The line-by-line copy of the set operation; found says whether the key had a line.
  method Rewrite(buf: string, key: string, newLine: string) returns (out: string, found: bool)
    ensures out == Rewritten(Lines(buf), key, newLine)
    ensures found <==> Lookup(Lines(buf), key).Some?
  {
    out, found := "", false;
    var p := buf;
    while p != ""
      invariant Rewritten(Lines(buf), key, newLine) == out + Rewritten(Lines(p), key, newLine)
      invariant Lookup(Lines(buf), key).Some? <==> found || Lookup(Lines(p), key).Some?
      decreases |p|
    {
      var line := p[..IndexOf(p, '\n')];
      RewrittenUnfold(out, p, key, newLine);
      if IsFor(line, key) {
        out, found := out + newLine, true;
      } else {
        out := out + (line + "\n");
      }
      p := AfterLine(p);
    }
  }
}
