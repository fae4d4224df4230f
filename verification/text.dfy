// C strings and line-oriented text: finding characters, splitting into lines,
// clipping to a buffer, and decimal numbers.
module Text {
  import opened Status
  import opened Words

  // ---- characters and buffers ----

  // strchr: the index of the first c, or the length when there is none.
  function IndexOf(s: string, c: char): (i: nat)
    ensures i <= |s| && c !in s[..i]
    ensures i < |s| ==> s[i] == c
  {
    if s == "" || s[0] == c then 0
    else
      var i := 1 + IndexOf(s[1..], c);
      assert s[..i] == [s[0]] + s[1..][..i - 1];
      i
  }

  // What a buffer of cap bytes keeps of a string, next to its terminator.
  function Clip(s: string, cap: nat): (r: string)
    ensures |s| < cap ==> r == s
    ensures forall c <- r :: c in s
  {
    if |s| < cap then s else if cap == 0 then "" else s[..cap - 1]
  }

  // The C string a buffer holds: everything before the first NUL.
  function CText(s: string): (r: string)
    ensures '\0' !in r
    ensures '\0' !in s ==> r == s
  {
    s[..IndexOf(s, '\0')]
  }

  // ---- lines ----

  // The lines a loop over strchr(p, '\n') sees; a final newline ends the last line and
  // starts no other.
  function Lines(s: string): (ls: seq<string>)
    ensures forall l <- ls :: '\n' !in l
    decreases |s|
  {
    if s == "" then []
    else
      var i := IndexOf(s, '\n');
      if i == |s| then [s] else [s[..i]] + Lines(s[i + 1..])
  }

  // Every line written with its newline.
  function Unlines(ls: seq<string>): string {
    if ls == [] then "" else ls[0] + "\n" + Unlines(ls[1..])
  }

  lemma IndexOfIn(s: string, c: char, i: nat)
    requires i < |s| && s[i] == c && c !in s[..i]
    ensures IndexOf(s, c) == i
  {
    var j := IndexOf(s, c);
  }

  // The text after the first line and its newline.
  function AfterLine(s: string): (r: string)
    ensures s != "" ==> |r| < |s|
  {
    var i := IndexOf(s, '\n');
    if i < |s| then s[i + 1..] else ""
  }

  lemma LinesUnfold(s: string)
    requires s != ""
    ensures Lines(s) == [s[..IndexOf(s, '\n')]] + Lines(AfterLine(s))
  {
    if IndexOf(s, '\n') == |s| {
      assert s[..|s|] == s;
    }
  }

  // The first line of a text and what follows it.
  lemma FirstLine(line: string, rest: string)
    requires '\n' !in line
    ensures var s := line + "\n" + rest;
      IndexOf(s, '\n') == |line| && s[..|line|] == line && s[|line| + 1..] == rest
  {
    var s := line + "\n" + rest;
    assert s[..|line|] == line;
    IndexOfIn(s, '\n', |line|);
  }

  // Splitting what was written line by line gives the lines back.
  lemma {:induction false} LinesOfUnlines(ls: seq<string>)
    requires forall l <- ls :: '\n' !in l
    ensures Lines(Unlines(ls)) == ls
    decreases |ls|
  {
    if ls != [] {
      FirstLine(ls[0], Unlines(ls[1..]));
      LinesOfUnlines(ls[1..]);
    }
  }

  lemma {:induction false} UnlinesAppend(a: seq<string>, b: seq<string>)
    ensures Unlines(a + b) == Unlines(a) + Unlines(b)
    decreases |a|
  {
    if a == [] {
      assert a + b == b;
    } else {
      UnlinesAppend(a[1..], b);
      assert (a + b)[1..] == a[1..] + b;
    }
  }

  lemma CutAppend(a: string, b: string, n: nat)
    requires n <= |a|
    ensures (a + b)[..n] == a[..n] && (a + b)[n..] == a[n..] + b
  {
  }

  lemma FirstNewline(a: string, b: string, i: nat)
    requires i == IndexOf(a, '\n') < |a|
    ensures IndexOf(a + b, '\n') == i && (a + b)[..i] == a[..i] && AfterLine(a + b) == AfterLine(a) + b
  {
    var s := a + b;
    CutAppend(a, b, i);
    CutAppend(a, b, i + 1);
    IndexOfIn(s, '\n', i);
  }

  // A text whose last line is ended by its newline, and what follows it.
  lemma {:induction false} LinesAppend(a: string, b: string)
    requires a == "" || a[|a| - 1] == '\n'
    ensures Lines(a + b) == Lines(a) + Lines(b)
    decreases |a|
  {
    if a == "" {
      assert a + b == b;
    } else {
      var i := IndexOf(a, '\n');
      FirstNewline(a, b, i);
      LinesUnfold(a);
      LinesUnfold(a + b);
      LinesAppend(AfterLine(a), b);
      Regroup([a[..i]], Lines(AfterLine(a)), Lines(b));
    }
  }

  // ---- separators and case ----

  // A line cut at its first separator.
  lemma KeyLine(key: string, sep: char, value: string)
    requires sep !in key
    ensures var line := key + [sep] + value;
      IndexOf(line, sep) == |key| && line[..|key|] == key && line[|key| + 1..] == value
  {
    var line := key + [sep] + value;
    assert line[..|key|] == key;
    IndexOfIn(line, sep, |key|);
  }

  // tolower and strcasecmp in the C locale.
  function Lower(c: char): char {
    if 'A' <= c <= 'Z' then c - 'A' + 'a' else c
  }

  function Fold(s: string): (r: string)
    ensures |r| == |s|
  {
    seq(|s|, i requires 0 <= i < |s| => Lower(s[i]))
  }

  // Two characters are the same letter, or the same character.
  predicate SameLetter(a: char, b: char) {
    a == b || ('A' <= a <= 'Z' && b as int == a as int + 32) || ('A' <= b <= 'Z' && a as int == b as int + 32)
  }

  lemma FoldIff(a: string, b: string)
    ensures Fold(a) == Fold(b) <==> |a| == |b| && forall i | 0 <= i < |a| :: SameLetter(a[i], b[i])
  {
    if |a| == |b| {
      forall i | 0 <= i < |a|
        ensures Fold(a)[i] == Fold(b)[i] <==> SameLetter(a[i], b[i])
      {
      }
    } else {
      assert |Fold(a)| != |Fold(b)|;
    }
  }
}
