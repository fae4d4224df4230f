// A snapshot under a label not used before always succeeds, so that together with rolling
// back it can be relied on without looking at any status.
module FreshLabels {
  import opened Tree
  import opened Snapshots

  const TOP: Path := ["snapshots"]
  const PROFILES: Path := ["profiles"]

  // The label is one plain path component, and nothing of that name lies among the snapshots.
  predicate NewLabel(t: Tree, tag: string) {
    && tag != "" && '/' !in tag && tag != "." && tag != ".."
    && !HasFile(t, TOP) && SnapDir(tag) !in t
  }

  lemma Below(tag: string, f: Path)
    requires tag != "." && tag != ".." && "." !in f && ".." !in f
    ensures Resolve(TOP) == TOP && Resolve(SnapDir(tag)) == SnapDir(tag)
    ensures Resolve(SnapDir(tag) + f) == SnapDir(tag) + f
  {
    assert |TOP[0]| == 9;
    PlainPath(TOP);
    PlainPath(SnapDir(tag));
    ResolvePlain(SnapDir(tag), f);
  }

  // In a tree nothing lies below a path that is not there.
  lemma {:induction false} PrefixIsThere(t: Tree, p: Path, n: nat)
    requires WellFormed(t) && p in t && n <= |p|
    ensures p[..n] in t
    decreases |p| - n
  {
    if n < |p| {
      PrefixIsThere(t, p, n + 1);
      assert p[..n + 1][..n] == p[..n];
    } else {
      assert p[..n] == p;
    }
  }

  lemma NothingBelow(t: Tree, tag: string, f: Path)
    requires WellFormed(t) && SnapDir(tag) !in t
    ensures SnapDir(tag) + f !in t
  {
    var p := SnapDir(tag) + f;
    assert p[..2] == SnapDir(tag);
    if p in t {
      PrefixIsThere(t, p, 2);
    }
  }

  lemma SnapFilesArePlain(f: Path)
    requires f in SnapFiles() || f == PROFILES
    ensures "." !in f && ".." !in f
  {
  }

  lemma NewLabelIsFresh(t: Tree, tag: string)
    requires WellFormed(t) && NewLabel(t, tag)
    ensures Fresh(t, tag)
  {
    forall f | f in SnapFiles()
      ensures Resolve(SnapDir(tag) + f) !in t
    {
      SnapFilesArePlain(f);
      Below(tag, f);
      NothingBelow(t, tag, f);
    }
  }

  // The snapshot's directory is there, and none of the given paths in it.
  ghost predicate Clear(m: Tree, tag: string, files: set<Path>) {
    IsDir(m, SnapDir(tag)) && forall f | f in files :: SnapDir(tag) + f !in m
  }

  lemma MkdirNew(t: Tree, tag: string)
    requires WellFormed(t) && NewLabel(t, tag)
    ensures var m := Mkdir(t, SnapDir(tag));
      m.ok && IsDir(m.tree, SnapDir(tag)) && m.tree.Keys == t.Keys + {TOP, SnapDir(tag)}
  {
    var d := SnapDir(tag);
    Below(tag, []);
    assert d[..|d| - 1] == TOP && TOP[..|TOP| - 1] == [];
    assert Mkdir(t, []) == Outcome(t, true);
    var above := Mkdir(t, TOP);
    assert |TOP| != |d|;
    assert above.ok && IsDir(above.tree, TOP) && above.tree.Keys == t.Keys + {TOP};
  }

  lemma MkdirIsClear(t: Tree, tag: string, files: set<Path>)
    requires WellFormed(t) && NewLabel(t, tag) && [] !in files
    ensures var m := Mkdir(t, SnapDir(tag));
      m.ok && Clear(m.tree, tag, files)
  {
    MkdirNew(t, tag);
    forall f | f in files
      ensures SnapDir(tag) + f !in t.Keys + {TOP, SnapDir(tag)}
    {
      NewIsClear(t, tag, f);
    }
  }

  lemma NewIsClear(t: Tree, tag: string, f: Path)
    requires WellFormed(t) && SnapDir(tag) !in t && f != []
    ensures SnapDir(tag) + f !in t.Keys + {TOP, SnapDir(tag)}
  {
    NothingBelow(t, tag, f);
    assert |SnapDir(tag) + f| > 2;
  }

  // A copy into an existing directory succeeds and makes nothing but the file.
  lemma CopyInto(t: Tree, src: seq<string>, dir: seq<string>, name: string)
    requires IsFile(t, src) && IsDir(t, dir) && Resolve(dir + [name]) !in t
    ensures Copy(t, src, dir + [name]).ok
    ensures Copy(t, src, dir + [name]).tree.Keys == t.Keys + {Resolve(dir + [name])}
  {
    var dst := dir + [name];
    assert dst[..|dst| - 1] == dir;
    MkdirOfDir(t, dir);
  }

  lemma CopyTop(m: Tree, tag: string, f: Path, files: set<Path>)
    requires tag != "." && tag != ".." && f in {APP, PREFIX} && IsFile(m, f)
    requires Clear(m, tag, files) && f in files
    ensures Copy(m, f, SnapDir(tag) + f).ok
    ensures Clear(Copy(m, f, SnapDir(tag) + f).tree, tag, files - {f})
  {
    TopCopied(m, tag, f);
    forall g | g in files - {f}
      ensures SnapDir(tag) + g !in m.Keys + {SnapDir(tag) + f}
    {
      assert (SnapDir(tag) + g)[2..] == g && (SnapDir(tag) + f)[2..] == f;
    }
  }

  lemma TopCopied(m: Tree, tag: string, f: Path)
    requires tag != "." && tag != ".." && f in {APP, PREFIX} && IsFile(m, f)
    requires IsDir(m, SnapDir(tag)) && SnapDir(tag) + f !in m
    ensures var c := Copy(m, f, SnapDir(tag) + f);
      c.ok && IsDir(c.tree, SnapDir(tag)) && c.tree.Keys == m.Keys + {SnapDir(tag) + f}
  {
    var d := SnapDir(tag);
    SnapFilesArePlain(f);
    Below(tag, f);
    assert [f[0]] == f;
    CopyInto(m, f, d, f[0]);
    CopyFrame(m, f, d + f);
    DirStays(m, Copy(m, f, d + f).tree, {Resolve(d + f)}, d);
  }

  // The profile's directory is made first.
  lemma CopyCurrent(m: Tree, tag: string)
    requires tag != "." && tag != ".." && IsFile(m, CURRENT)
    requires Clear(m, tag, {PROFILES, CURRENT})
    ensures Copy(m, CURRENT, SnapDir(tag) + CURRENT).ok
  {
    var way, dst := SnapDir(tag) + PROFILES, SnapDir(tag) + CURRENT;
    MkdirProfiles(m, tag);
    var made := m[way := Dir];
    assert dst[..|dst| - 1] == way;
    SnapFilesArePlain(CURRENT);
    Below(tag, CURRENT);
    MkdirFrame(m, way);
    FileStays(m, made, {}, CURRENT);
    assert |dst| != |way|;
  }

  lemma MkdirProfiles(m: Tree, tag: string)
    requires tag != "." && tag != ".." && Clear(m, tag, {PROFILES, CURRENT})
    ensures var way := SnapDir(tag) + PROFILES;
      Mkdir(m, way) == Outcome(m[way := Dir], true) && IsDir(m[way := Dir], way)
  {
    var d := SnapDir(tag);
    var way := d + PROFILES;
    assert way[..|way| - 1] == d;
    SnapFilesArePlain(PROFILES);
    Below(tag, PROFILES);
    MkdirOfDir(m, d);
    assert Mkdir(m, way) == Outcome(m[way := Dir], true);
    MkdirFrame(m, way);
    DirStays(m, m[way := Dir], {}, d);
  }

  lemma CopiesOut(m: Tree, tag: string)
    requires tag != "." && tag != ".." && Clear(m, tag, {APP, PREFIX, PROFILES, CURRENT})
    ensures CopyAll(m, [], SnapDir(tag), Tracked()).ok
  {
    var d, files := SnapDir(tag), Tracked();
    assert files[1..] == [PREFIX, CURRENT];
    assert [] + APP == APP;
    var left := {APP, PREFIX, PROFILES, CURRENT};
    if IsFile(m, APP) {
      CopyTop(m, tag, APP, left);
      CopiesRest(Copy(m, APP, d + APP).tree, tag);
    } else {
      CopiesRest(m, tag);
    }
  }

  lemma CopiesRest(m: Tree, tag: string)
    requires tag != "." && tag != ".." && Clear(m, tag, {PREFIX, PROFILES, CURRENT})
    ensures CopyAll(m, [], SnapDir(tag), [PREFIX, CURRENT]).ok
  {
    var d, files := SnapDir(tag), [PREFIX, CURRENT];
    assert files[1..] == [CURRENT];
    assert [] + PREFIX == PREFIX;
    if IsFile(m, PREFIX) {
      CopyTop(m, tag, PREFIX, {PREFIX, PROFILES, CURRENT});
      CopiesLast(Copy(m, PREFIX, d + PREFIX).tree, tag);
    } else {
      CopiesLast(m, tag);
    }
  }

  lemma CopiesLast(m: Tree, tag: string)
    requires tag != "." && tag != ".." && Clear(m, tag, {PROFILES, CURRENT})
    ensures CopyAll(m, [], SnapDir(tag), [CURRENT]).ok
  {
    assert [CURRENT][1..] == [] && [] + CURRENT == CURRENT;
    if IsFile(m, CURRENT) {
      CopyCurrent(m, tag);
    }
  }

  lemma NamedFiles()
    ensures [] !in {APP, PREFIX, PROFILES, CURRENT}
  {
  }

  // Taking a snapshot under a new label of a workspace that can be loaded succeeds.
  lemma NewSnapshotSucceeds(t: Tree, tag: string)
    requires WellFormed(t) && Loads(t) && NewLabel(t, tag)
    ensures Snapshot(t, tag).ok
  {
    NamedFiles();
    MkdirIsClear(t, tag, {APP, PREFIX, PROFILES, CURRENT});
    CopiesOut(Mkdir(t, SnapDir(tag)).tree, tag);
  }

  // Snapshot, any operations that do not take it again, rollback: both succeed, the tracked
  // files that existed are back, and rolling back touches nothing else.
  lemma SnapshotProtects(was: Tree, tag: string, ops: seq<Op>)
    requires WellFormed(was) && IsFile(was, APP) && NewLabel(was, tag) && TakeSnapshot(tag) !in ops
    ensures var now := Run(Snapshot(was, tag).tree, ops);
      && Snapshot(was, tag).ok && Rollback(now, tag).ok
      && Restored(was, Rollback(now, tag).tree)
      && Frame(now, Rollback(now, tag).tree, Existing(was))
  {
    NewSnapshotSucceeds(was, tag);
    NewLabelIsFresh(was, tag);
    FreshRollback(was, tag, ops);
  }
}
