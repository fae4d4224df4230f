// The directory tree of one workspace: path lookup, directory creation and file copies.
module Tree {
  import opened Status

  // Components below the workspace directory, which is [].
  type Path = seq<string>

  datatype Node = Dir | File(text: string)

  type Tree = map<Path, Node>

  datatype Outcome = Outcome(tree: Tree, ok: bool)

  // ---- lookup ----

  // The path with "." dropped and ".." applied.
  function Resolve(comps: seq<string>): Path {
    if comps == [] then []
    else
      var at, c := Resolve(comps[..|comps| - 1]), comps[|comps| - 1];
      if c == "." then at
      else if c != ".." then at + [c]
      else if at == [] then [] else at[..|at| - 1]
  }

  // Every component but the last must lead to a directory.
  predicate Reachable(t: Tree, comps: seq<string>) {
    comps == [] || IsDir(t, comps[..|comps| - 1])
  }

  predicate IsDir(t: Tree, comps: seq<string>)
    decreases |comps|, 1
  {
    && (comps == [] || IsDir(t, comps[..|comps| - 1]))
    && Resolve(comps) in t && t[Resolve(comps)].Dir?
  }

  predicate IsFile(t: Tree, comps: seq<string>) {
    Reachable(t, comps) && Resolve(comps) in t && t[Resolve(comps)].File?
  }

  function TextOf(t: Tree, comps: seq<string>): string
    requires IsFile(t, comps)
  {
    t[Resolve(comps)].text
  }

  predicate Holds(t: Tree, comps: seq<string>, text: string) {
    IsFile(t, comps) && TextOf(t, comps) == text
  }

  // ---- changes ----

  // cellar_mkdir_p: mkdir on every prefix; an existing node is no error.
  function Mkdir(t: Tree, comps: seq<string>): Outcome {
    if comps == [] then Outcome(t, true)
    else
      var above := Mkdir(t, comps[..|comps| - 1]);
      if !above.ok then above
      else if !Reachable(above.tree, comps) then Outcome(above.tree, false)
      else if Resolve(comps) in above.tree then above
      else Outcome(above.tree[Resolve(comps) := Dir], true)
  }

  // fopen for writing, the bytes, fclose.
  function Write(t: Tree, comps: seq<string>, text: string): Outcome {
    if !Reachable(t, comps) || (Resolve(comps) in t && t[Resolve(comps)].Dir?) then Outcome(t, false)
    else Outcome(t[Resolve(comps) := File(text)], true)
  }

  // copy_file. The target is opened, and so emptied, before the source is read.
  function Copy(t: Tree, src: seq<string>, dst: seq<string>): Outcome
    requires |dst| > 0
  {
    var m := Mkdir(t, dst[..|dst| - 1]);
    if !m.ok || !IsFile(m.tree, src) then Outcome(m.tree, false)
    else Write(m.tree, dst, if Resolve(src) == Resolve(dst) then "" else TextOf(m.tree, src))
  }

  // Those of the files that exist below one directory, copied below another, up to the
  // first failure.
  function CopyAll(t: Tree, from: seq<string>, to: seq<string>, files: seq<seq<string>>): Outcome
    requires forall f <- files :: |f| > 0
    decreases |files|
  {
    if files == [] then Outcome(t, true)
    else if !IsFile(t, from + files[0]) then CopyAll(t, from, to, files[1..])
    else
      var c := Copy(t, from + files[0], to + files[0]);
      if !c.ok then c else CopyAll(c.tree, from, to, files[1..])
  }

  // ---- what a change leaves alone ----

  // Nothing disappears or changes its kind, and no file outside the set is made or changed.
  ghost predicate Frame(a: Tree, b: Tree, touched: set<Path>) {
    && (forall p | p in a :: p in b && (a[p].Dir? <==> b[p].Dir?) && (p !in touched ==> b[p] == a[p]))
    && (forall p | p in b && p !in a && p !in touched :: b[p].Dir?)
  }

  lemma FrameTrans(a: Tree, b: Tree, c: Tree, touched: set<Path>)
    requires Frame(a, b, touched) && Frame(b, c, touched)
    ensures Frame(a, c, touched)
  {
  }

  lemma {:induction false} DirStays(a: Tree, b: Tree, touched: set<Path>, comps: seq<string>)
    requires Frame(a, b, touched) && IsDir(a, comps)
    ensures IsDir(b, comps)
    decreases |comps|
  {
    if comps != [] {
      DirStays(a, b, touched, comps[..|comps| - 1]);
    }
  }

  lemma FileStays(a: Tree, b: Tree, touched: set<Path>, comps: seq<string>)
    requires Frame(a, b, touched) && IsFile(a, comps)
    ensures IsFile(b, comps)
    ensures Resolve(comps) !in touched ==> TextOf(b, comps) == TextOf(a, comps)
  {
    if comps != [] {
      DirStays(a, b, touched, comps[..|comps| - 1]);
    }
  }

  lemma {:induction false} MkdirFrame(t: Tree, comps: seq<string>)
    ensures Frame(t, Mkdir(t, comps).tree, {})
    decreases |comps|
  {
    if comps != [] {
      MkdirFrame(t, comps[..|comps| - 1]);
    }
  }

  lemma WriteFrame(t: Tree, comps: seq<string>, text: string)
    ensures Frame(t, Write(t, comps, text).tree, {Resolve(comps)})
    ensures Write(t, comps, text).ok ==> Holds(Write(t, comps, text).tree, comps, text)
  {
    var w := Write(t, comps, text);
    if w.ok && comps != [] {
      DirStays(t, w.tree, {Resolve(comps)}, comps[..|comps| - 1]);
    }
  }

  lemma FrameWiden(a: Tree, b: Tree, small: set<Path>, touched: set<Path>)
    requires Frame(a, b, small) && small <= touched
    ensures Frame(a, b, touched)
  {
  }

  lemma CopyFrame(t: Tree, src: seq<string>, dst: seq<string>)
    requires |dst| > 0
    ensures Frame(t, Copy(t, src, dst).tree, {Resolve(dst)})
  {
    var m := Mkdir(t, dst[..|dst| - 1]);
    MkdirFrame(t, dst[..|dst| - 1]);
    FrameWiden(t, m.tree, {}, {Resolve(dst)});
    if m.ok && IsFile(m.tree, src) {
      var text := if Resolve(src) == Resolve(dst) then "" else TextOf(m.tree, src);
      WriteFrame(m.tree, dst, text);
      FrameTrans(t, m.tree, Copy(t, src, dst).tree, {Resolve(dst)});
    }
  }

  // A copy gives the target the source's content, except onto itself, which empties it.
  lemma CopyContent(t: Tree, src: seq<string>, dst: seq<string>)
    requires |dst| > 0 && IsFile(t, src) && Copy(t, src, dst).ok
    ensures Holds(Copy(t, src, dst).tree, dst, if Resolve(src) == Resolve(dst) then "" else TextOf(t, src))
  {
    var m := Mkdir(t, dst[..|dst| - 1]);
    MkdirFrame(t, dst[..|dst| - 1]);
    FileStays(t, m.tree, {}, src);
    WriteFrame(m.tree, dst, if Resolve(src) == Resolve(dst) then "" else TextOf(m.tree, src));
  }

  // A directory is never in the way of its own creation.
  lemma {:induction false} MkdirOfDir(t: Tree, comps: seq<string>)
    requires IsDir(t, comps)
    ensures Mkdir(t, comps) == Outcome(t, true)
    decreases |comps|
  {
    if comps != [] {
      MkdirOfDir(t, comps[..|comps| - 1]);
    }
  }

  // Overwriting an existing file cannot fail.
  lemma CopyOntoFile(t: Tree, src: seq<string>, dst: seq<string>)
    requires |dst| > 0 && IsFile(t, src) && IsFile(t, dst)
    ensures Copy(t, src, dst).ok
  {
    MkdirOfDir(t, dst[..|dst| - 1]);
  }

  ghost function Targets(to: seq<string>, files: seq<seq<string>>): set<Path> {
    set f | f in files :: Resolve(to + f)
  }

  lemma {:induction false} CopyAllFrame(t: Tree, from: seq<string>, to: seq<string>, files: seq<seq<string>>)
    requires forall f <- files :: |f| > 0
    ensures Frame(t, CopyAll(t, from, to, files).tree, Targets(to, files))
    decreases |files|
  {
    if files != [] {
      var f := files[0];
      var next := if IsFile(t, from + f) then Copy(t, from + f, to + f).tree else t;
      var all := Targets(to, files);
      assert Resolve(to + f) in all;
      if IsFile(t, from + f) {
        CopyFrame(t, from + f, to + f);
        FrameWiden(t, next, {Resolve(to + f)}, all);
      }
      CopyAllFrame(next, from, to, files[1..]);
      FrameWiden(next, CopyAll(next, from, to, files[1..]).tree, Targets(to, files[1..]), all);
      FrameTrans(t, next, CopyAll(next, from, to, files[1..]).tree, all);
    }
  }

  // Sources and targets apart and targets pairwise apart.
  ghost predicate Apart(from: seq<string>, to: seq<string>, files: seq<seq<string>>) {
    && (forall f, g | f in files && g in files :: Resolve(from + f) != Resolve(to + g))
    && (forall i, j | 0 <= i < j < |files| :: Resolve(to + files[i]) != Resolve(to + files[j]))
  }

  // A complete copy carries over every file that existed.
  lemma {:induction false} CopyAllContent(t: Tree, from: seq<string>, to: seq<string>, files: seq<seq<string>>, f: seq<string>)
    requires forall g <- files :: |g| > 0
    requires Apart(from, to, files) && f in files && IsFile(t, from + f)
    requires CopyAll(t, from, to, files).ok
    ensures Holds(CopyAll(t, from, to, files).tree, to + f, TextOf(t, from + f))
    decreases |files|
  {
    var g, rest := files[0], files[1..];
    var next := if IsFile(t, from + g) then Copy(t, from + g, to + g).tree else t;
    if IsFile(t, from + g) {
      CopyFrame(t, from + g, to + g);
      CopyContent(t, from + g, to + g);
    }
    if f == g {
      CopyAllFrame(next, from, to, rest);
      NotAgain(to, files);
      FileStays(next, CopyAll(next, from, to, rest).tree, Targets(to, rest), to + f);
    } else {
      if IsFile(t, from + g) {
        FileStays(t, next, {Resolve(to + g)}, from + f);
      }
      assert forall i | 0 <= i < |rest| :: rest[i] == files[i + 1];
      CopyAllContent(next, from, to, rest, f);
    }
  }

  lemma NotAgain(to: seq<string>, files: seq<seq<string>>)
    requires files != []
    requires forall i, j | 0 <= i < j < |files| :: Resolve(to + files[i]) != Resolve(to + files[j])
    ensures Resolve(to + files[0]) !in Targets(to, files[1..])
  {
    forall f | f in files[1..]
      ensures Resolve(to + f) != Resolve(to + files[0])
    {
      var j :| 1 <= j < |files| && files[j] == f;
    }
  }

  // A file at the path, whether or not the way to it is a directory.
  predicate HasFile(t: Tree, p: Path) { p in t && t[p].File? }

  ghost function TargetsOf(t: Tree, from: seq<string>, to: seq<string>, files: seq<seq<string>>): set<Path> {
    set f | f in files && HasFile(t, Resolve(from + f)) :: Resolve(to + f)
  }

  // Only the targets of existing sources are touched.
  lemma {:induction false} CopyAllFrameOf(t: Tree, from: seq<string>, to: seq<string>, files: seq<seq<string>>)
    requires forall f <- files :: |f| > 0
    requires Apart(from, to, files)
    ensures Frame(t, CopyAll(t, from, to, files).tree, TargetsOf(t, from, to, files))
    decreases |files|
  {
    if files != [] {
      var f, rest := files[0], files[1..];
      var next := if IsFile(t, from + f) then Copy(t, from + f, to + f).tree else t;
      var all := TargetsOf(t, from, to, files);
      if IsFile(t, from + f) {
        CopyFrame(t, from + f, to + f);
        assert Resolve(to + f) in all;
        FrameWiden(t, next, {Resolve(to + f)}, all);
      }
      assert forall i | 0 <= i < |rest| :: rest[i] == files[i + 1];
      CopyAllFrameOf(next, from, to, rest);
      SameSources(t, next, from, to, files);
      FrameWiden(next, CopyAll(next, from, to, rest).tree, TargetsOf(next, from, to, rest), all);
      FrameTrans(t, next, CopyAll(next, from, to, rest).tree, all);
    }
  }

  lemma SameSources(t: Tree, next: Tree, from: seq<string>, to: seq<string>, files: seq<seq<string>>)
    requires files != [] && Apart(from, to, files) && Frame(t, next, {Resolve(to + files[0])})
    ensures TargetsOf(next, from, to, files[1..]) <= TargetsOf(t, from, to, files)
  {
    forall f | f in files[1..] && HasFile(next, Resolve(from + f))
      ensures HasFile(t, Resolve(from + f))
    {
      assert f in files && files[0] in files;
    }
  }

  // Copying over files that all exist succeeds.
  lemma {:induction false} CopyAllOntoFiles(t: Tree, from: seq<string>, to: seq<string>, files: seq<seq<string>>)
    requires forall f <- files :: |f| > 0
    requires Apart(from, to, files)
    requires forall f <- files :: HasFile(t, Resolve(from + f)) ==> IsFile(t, to + f)
    ensures CopyAll(t, from, to, files).ok
    decreases |files|
  {
    if files != [] {
      var f, rest := files[0], files[1..];
      assert forall i | 0 <= i < |rest| :: rest[i] == files[i + 1];
      if IsFile(t, from + f) {
        CopyOntoFile(t, from + f, to + f);
        CopyFrame(t, from + f, to + f);
        var next := Copy(t, from + f, to + f).tree;
        forall g | g in rest && HasFile(next, Resolve(from + g))
          ensures IsFile(next, to + g)
        {
          assert g in files;
          FileStays(t, next, {Resolve(to + f)}, to + g);
        }
        CopyAllOntoFiles(next, from, to, rest);
      } else {
        CopyAllOntoFiles(t, from, to, rest);
      }
    }
  }

  // Copying files onto themselves empties them.
  lemma {:induction false} CopyAllOntoItself(t: Tree, from: seq<string>, to: seq<string>, files: seq<seq<string>>, f: seq<string>)
    requires forall g <- files :: |g| > 0 && Resolve(from + g) == Resolve(to + g)
    requires forall i, j | 0 <= i < j < |files| :: Resolve(to + files[i]) != Resolve(to + files[j])
    requires f in files && IsFile(t, from + f) && CopyAll(t, from, to, files).ok
    ensures Holds(CopyAll(t, from, to, files).tree, to + f, "")
    decreases |files|
  {
    var g, rest := files[0], files[1..];
    var next := if IsFile(t, from + g) then Copy(t, from + g, to + g).tree else t;
    if IsFile(t, from + g) {
      CopyFrame(t, from + g, to + g);
      CopyContent(t, from + g, to + g);
    }
    assert forall i | 0 <= i < |rest| :: rest[i] == files[i + 1];
    if f == g {
      CopyAllFrame(next, from, to, rest);
      NotAgain(to, files);
      FileStays(next, CopyAll(next, from, to, rest).tree, Targets(to, rest), to + f);
    } else {
      if IsFile(t, from + g) {
        FileStays(t, next, {Resolve(to + g)}, from + f);
      }
      CopyAllOntoItself(next, from, to, rest, f);
    }
  }

  // A copy of an existing file onto itself changes nothing but its content.
  lemma CopyOntoItself(t: Tree, src: seq<string>, dst: seq<string>)
    requires |dst| > 0 && Resolve(src) == Resolve(dst) && IsFile(t, src) && IsFile(t, dst)
    ensures Copy(t, src, dst) == Outcome(t[Resolve(dst) := File("")], true)
  {
    MkdirOfDir(t, dst[..|dst| - 1]);
  }

  lemma {:induction false} CopyAllOntoItselfSucceeds(t: Tree, from: seq<string>, to: seq<string>, files: seq<seq<string>>)
    requires forall g <- files :: |g| > 0 && Resolve(from + g) == Resolve(to + g)
    requires forall g <- files :: IsFile(t, from + g) ==> IsFile(t, to + g)
    ensures CopyAll(t, from, to, files).ok
    decreases |files|
  {
    if files != [] {
      var f, rest := files[0], files[1..];
      if IsFile(t, from + f) {
        CopyOntoItself(t, from + f, to + f);
        var next := Copy(t, from + f, to + f).tree;
        forall g | g in rest && IsFile(next, from + g)
          ensures IsFile(next, to + g)
        {
          FileStays(next, t, {Resolve(to + f)}, from + g);
          FileStays(t, next, {Resolve(to + f)}, to + g);
        }
        CopyAllOntoItselfSucceeds(next, from, to, rest);
      } else {
        CopyAllOntoItselfSucceeds(t, from, to, rest);
      }
    }
  }

  // Components without "." and ".." are the path.
  lemma {:induction false} ResolvePlain(base: seq<string>, f: seq<string>)
    requires "." !in f && ".." !in f
    ensures Resolve(base + f) == Resolve(base) + f
    decreases |f|
  {
    if f == [] {
      assert base + f == base;
    } else {
      var front := f[..|f| - 1];
      assert (base + f)[..|base + f| - 1] == base + front;
      ResolvePlain(base, front);
      assert f == front + [f[|f| - 1]];
    }
  }
}
