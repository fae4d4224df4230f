// Snapshots of a workspace and rolling back to them, among the other operations that
// change the workspace's files.
module Snapshots {
  import opened Status
  import opened Tree
  import Text
  import Settings
  import Profile
  import Workspace

  const PROFILE_BUFFER: nat := 8192

  const APP: Path := ["app.conf"]
  const PREFIX: Path := ["prefix.conf"]
  const CURRENT: Path := ["profiles", "current.profile"]
  const LABEL: Path := ["label.txt"]

  function Tracked(): seq<Path> { [APP, PREFIX, CURRENT] }

  function SnapDir(tag: string): seq<string> { ["snapshots", tag] }

  // What the workspace directory is assumed to be: [] is a directory and everything else
  // lies in one.
  ghost predicate WellFormed(t: Tree) {
    && IsDir(t, [])
    && forall p | p in t && p != [] :: p[..|p| - 1] in t && t[p[..|p| - 1]].Dir?
  }

  // cellar_workspace_load finds something to read.
  predicate Loads(t: Tree) {
    Reachable(t, APP) && Resolve(APP) in t
  }

  // ---- the operations ----

  function Snapshot(t: Tree, tag: string): Outcome {
    if tag == "" || '/' in tag || !Loads(t) then Outcome(t, false)
    else
      var m := Mkdir(t, SnapDir(tag));
      if !m.ok then m
      else
        var c := CopyAll(m.tree, [], SnapDir(tag), Tracked());
        if !c.ok then c
        else Outcome(Write(c.tree, SnapDir(tag) + LABEL, tag).tree, true)
  }

  function Rollback(t: Tree, tag: string): Outcome {
    if tag == "" || !Loads(t) || !IsDir(t, SnapDir(tag)) then Outcome(t, false)
    else CopyAll(t, SnapDir(tag), [], Tracked())
  }

  function SetSetting(t: Tree, key: string, value: string): Outcome {
    if key == "" || !IsFile(t, PREFIX) then Outcome(t, false)
    else Write(t, PREFIX, Settings.Set(TextOf(t, PREFIX), key, value))
  }

  function ProfileFile(tag: string): Path { ["profiles", tag + ".profile"] }

  // The file cellar_workspace_profile_save writes for a slash-free label.
  function SaveProfile(t: Tree, tag: string, text: string): Outcome {
    if tag == "" then Outcome(t, false)
    else
      var m := Mkdir(t, ["profiles"]);
      if !m.ok then m else Write(m.tree, ProfileFile(tag), text)
  }

  // The label of the active profile, "" when there is none.
  function CurrentLabel(t: Tree): string {
    if !IsFile(t, CURRENT) then ""
    else
      var p := Profile.Parsed(Settings.Seen(TextOf(t, CURRENT), PROFILE_BUFFER));
      if Profile.Label in p.texts then p.texts[Profile.Label] else ""
  }

  // cellar_workspace_profile_apply: conf is the text of the record with the profile's
  // settings in it, text the printed profile.
  function ApplyProfile(t: Tree, conf: string, tag: string, text: string): Outcome {
    if !Loads(t) then Outcome(t, false)
    else
      var s := Write(t, APP, conf);
      if !s.ok || CurrentLabel(s.tree) == tag then s
      else
        var p := SaveProfile(s.tree, tag, text);
        if !p.ok then p else Outcome(Write(p.tree, CURRENT, text).tree, true)
  }

  datatype Op =
    | SaveRecord(conf: string)
    | ChangeSetting(key: string, value: string)
    | StoreProfile(name: string, text: string)
    | UseProfile(conf: string, name: string, text: string)
    | TakeSnapshot(tag: string)
    | RollBackTo(tag: string)

  function Apply(t: Tree, op: Op): Outcome {
    match op
    case SaveRecord(conf) => Write(t, APP, conf)
    case ChangeSetting(key, value) => SetSetting(t, key, value)
    case StoreProfile(name, text) => SaveProfile(t, name, text)
    case UseProfile(conf, name, text) => ApplyProfile(t, conf, name, text)
    case TakeSnapshot(tag) => Snapshot(t, tag)
    case RollBackTo(tag) => Rollback(t, tag)
  }

  function Run(t: Tree, ops: seq<Op>): Tree
    decreases |ops|
  {
    if ops == [] then t else Run(Apply(t, ops[0]).tree, ops[1..])
  }

  // ---- what each operation may touch ----

  function SnapFiles(): seq<Path> { Tracked() + [LABEL] }

  ghost function Touches(op: Op): set<Path> {
    match op
    case SaveRecord(_) => {APP}
    case ChangeSetting(_, _) => {PREFIX}
    case StoreProfile(name, _) => {ProfileFile(name)}
    case UseProfile(_, name, _) => {APP, ProfileFile(name), CURRENT}
    case TakeSnapshot(tag) => Targets(SnapDir(tag), SnapFiles())
    case RollBackTo(_) => {APP, PREFIX, CURRENT}
  }

  lemma Fixed(name: string)
    ensures Resolve(APP) == APP && Resolve(PREFIX) == PREFIX && Resolve(CURRENT) == CURRENT
    ensures Resolve(ProfileFile(name)) == ProfileFile(name)
  {
    var last := name + ".profile";
    assert |last| >= 8;
    PlainPath(APP);
    PlainPath(PREFIX);
    PlainPath(CURRENT);
    PlainPath(ProfileFile(name));
  }

  lemma PlainPath(f: Path)
    requires "." !in f && ".." !in f
    ensures Resolve(f) == f
  {
    ResolvePlain([], f);
    assert [] + f == f;
  }

  lemma WriteStep(a: Tree, b: Tree, comps: seq<string>, text: string, touched: set<Path>)
    requires Frame(a, b, touched) && Resolve(comps) in touched
    ensures Frame(a, Write(b, comps, text).tree, touched)
  {
    WriteFrame(b, comps, text);
    FrameWiden(b, Write(b, comps, text).tree, {Resolve(comps)}, touched);
    FrameTrans(a, b, Write(b, comps, text).tree, touched);
  }

  lemma SaveProfileFrame(t: Tree, tag: string, text: string)
    ensures Frame(t, SaveProfile(t, tag, text).tree, {ProfileFile(tag)})
  {
    Fixed(tag);
    MkdirFrame(t, ["profiles"]);
    var m := Mkdir(t, ["profiles"]);
    FrameWiden(t, m.tree, {}, {ProfileFile(tag)});
    WriteStep(t, m.tree, ProfileFile(tag), text, {ProfileFile(tag)});
  }

  lemma ApplyProfileFrame(t: Tree, conf: string, tag: string, text: string)
    ensures Frame(t, ApplyProfile(t, conf, tag, text).tree, {APP, ProfileFile(tag), CURRENT})
  {
    Fixed(tag);
    var all := {APP, ProfileFile(tag), CURRENT};
    var s := Write(t, APP, conf);
    WriteStep(t, t, APP, conf, all);
    var p := SaveProfile(s.tree, tag, text);
    SaveProfileFrame(s.tree, tag, text);
    FrameWiden(s.tree, p.tree, {ProfileFile(tag)}, all);
    FrameTrans(t, s.tree, p.tree, all);
    WriteStep(t, p.tree, CURRENT, text, all);
  }

  lemma SnapshotFrame(t: Tree, tag: string)
    ensures Frame(t, Snapshot(t, tag).tree, Targets(SnapDir(tag), SnapFiles()))
  {
    var all := Targets(SnapDir(tag), SnapFiles());
    var m := Mkdir(t, SnapDir(tag));
    MkdirFrame(t, SnapDir(tag));
    FrameWiden(t, m.tree, {}, all);
    var c := CopyAll(m.tree, [], SnapDir(tag), Tracked());
    CopyAllFrame(m.tree, [], SnapDir(tag), Tracked());
    assert Targets(SnapDir(tag), Tracked()) <= all;
    FrameWiden(m.tree, c.tree, Targets(SnapDir(tag), Tracked()), all);
    FrameTrans(t, m.tree, c.tree, all);
    assert LABEL in SnapFiles();
    WriteStep(t, c.tree, SnapDir(tag) + LABEL, tag, all);
  }

  lemma TargetsHere()
    ensures Targets([], Tracked()) == {APP, PREFIX, CURRENT}
  {
    Fixed("");
    assert [] + APP == APP && [] + PREFIX == PREFIX && [] + CURRENT == CURRENT;
    var files := Tracked();
    assert APP in files && PREFIX in files && CURRENT in files;
  }

  lemma RollbackFrame(t: Tree, tag: string)
    ensures Frame(t, Rollback(t, tag).tree, {APP, PREFIX, CURRENT})
  {
    CopyBackFrame(t, tag);
  }

  lemma CopyBackFrame(t: Tree, tag: string)
    ensures Frame(t, CopyAll(t, SnapDir(tag), [], Tracked()).tree, {APP, PREFIX, CURRENT})
  {
    CopyAllFrame(t, SnapDir(tag), [], Tracked());
    TargetsHere();
  }

  lemma SetSettingFrame(t: Tree, key: string, value: string)
    ensures Frame(t, SetSetting(t, key, value).tree, {PREFIX})
  {
    Fixed("");
    if IsFile(t, PREFIX) {
      WriteFrame(t, PREFIX, Settings.Set(TextOf(t, PREFIX), key, value));
    }
  }

  lemma OpFrame(t: Tree, op: Op)
    ensures Frame(t, Apply(t, op).tree, Touches(op))
  {
    match op
    case SaveRecord(conf) =>
      Fixed("");
      WriteFrame(t, APP, conf);
    case ChangeSetting(key, value) => SetSettingFrame(t, key, value);
    case StoreProfile(name, text) => SaveProfileFrame(t, name, text);
    case UseProfile(conf, name, text) => ApplyProfileFrame(t, conf, name, text);
    case TakeSnapshot(tag) => SnapshotFrame(t, tag);
    case RollBackTo(tag) => RollbackFrame(t, tag);
  }

  // ---- where snapshots live ----

  function SnapPath(tag: string, f: Path): Path {
    if tag == "." then ["snapshots"] + f
    else if tag == ".." then f
    else ["snapshots", tag] + f
  }

  lemma SnapPathIs(tag: string, f: Path)
    requires f in SnapFiles()
    ensures Resolve(SnapDir(tag) + f) == SnapPath(tag, f)
  {
    var d := SnapDir(tag);
    assert d[..1] == ["snapshots"] && d[..1][..0] == [];
    assert Resolve(d[..1]) == ["snapshots"];
    assert |Resolve(d[..1])| == 1 && ["snapshots"][..0] == [];
    ResolvePlain(d, f);
    if tag == ".." {
      assert Resolve(d) == [];
    }
  }

  // A snapshot's files are touched by no operation except taking it again.
  lemma SnapApart(tag: string, f: Path, op: Op)
    requires f in Tracked() && tag != ".."
    requires op != TakeSnapshot(tag)
    ensures Resolve(SnapDir(tag) + f) !in Touches(op)
  {
    assert f in SnapFiles();
    SnapPathIs(tag, f);
    if op.TakeSnapshot? {
      forall g | g in SnapFiles()
        ensures Resolve(SnapDir(op.tag) + g) != SnapPath(tag, f)
      {
        SnapPathIs(op.tag, g);
        SnapPathsDiffer(tag, f, op.tag, g);
      }
    } else {
      assert SnapPath(tag, f)[0] == "snapshots";
    }
  }

  lemma NotNested(f: Path, tag: string, g: Path)
    requires f in SnapFiles() && g in SnapFiles()
    ensures f != [tag] + g
  {
    var below := [tag] + g;
    if f == CURRENT {
      assert below[1..] == g && CURRENT[1..] == ["current.profile"];
    } else {
      assert |f| == 1 && |below| >= 2;
    }
  }

  lemma SnapPathsDiffer(l1: string, f: Path, l2: string, g: Path)
    requires f in Tracked() && g in SnapFiles() && l1 != l2 && l1 != ".."
    ensures SnapPath(l1, f) != SnapPath(l2, g)
  {
    var p, q := SnapPath(l1, f), SnapPath(l2, g);
    assert f in SnapFiles();
    assert p[0] == "snapshots";
    if l2 == ".." {
      assert q[0] != "snapshots";
    } else if l1 == "." {
      assert p[1..] == f && q[1..] == [l2] + g;
      NotNested(f, l2, g);
    } else if l2 == "." {
      assert p[1..] == [l1] + f && q[1..] == g;
      NotNested(g, l1, f);
    } else {
      assert p[1] == l1 && q[1] == l2;
    }
  }

  // ---- runs between a snapshot and rolling back to it ----

  // Nothing disappears or changes its kind, and a file of the set is made or changed by no one.
  ghost predicate Keeps(a: Tree, b: Tree, kept: set<Path>) {
    && (forall p | p in a :: p in b && (a[p].Dir? <==> b[p].Dir?))
    && (forall p | p in kept :: (HasFile(a, p) <==> HasFile(b, p)) && (HasFile(a, p) ==> a[p] == b[p]))
  }

  ghost function SnapSet(tag: string): set<Path> { Targets(SnapDir(tag), Tracked()) }

  lemma {:induction false} RunKeeps(t: Tree, ops: seq<Op>, tag: string)
    requires tag != ".." && TakeSnapshot(tag) !in ops
    ensures Keeps(t, Run(t, ops), SnapSet(tag))
    decreases |ops|
  {
    if ops != [] {
      var next := Apply(t, ops[0]).tree;
      OpFrame(t, ops[0]);
      forall f | f in Tracked()
        ensures Resolve(SnapDir(tag) + f) !in Touches(ops[0])
      {
        SnapApart(tag, f, ops[0]);
      }
      RunKeeps(next, ops[1..], tag);
    }
  }

  lemma KeepsIsFrame(a: Tree, b: Tree, kept: set<Path>)
    requires Keeps(a, b, kept)
    ensures exists touched: set<Path> :: Frame(a, b, touched) && touched !! kept
  {
    var touched := set p | p in b && !(p in a && a[p] == b[p]) && p !in kept;
    assert Frame(a, b, touched + (b.Keys - kept));
  }

  lemma FileKept(a: Tree, b: Tree, kept: set<Path>, comps: seq<string>)
    requires Keeps(a, b, kept) && IsFile(a, comps)
    ensures IsFile(b, comps)
    ensures Resolve(comps) in kept ==> TextOf(b, comps) == TextOf(a, comps)
  {
    KeepsIsFrame(a, b, kept);
    var touched: set<Path> :| Frame(a, b, touched) && touched !! kept;
    FileStays(a, b, touched, comps);
  }

  lemma PathsOf(tag: string, f: Path)
    requires f in Tracked()
    ensures Resolve([] + f) == f && Resolve(SnapDir(tag) + f) == SnapPath(tag, f)
  {
    Fixed("");
    assert f in SnapFiles() && [] + f == f;
    SnapPathIs(tag, f);
  }

  lemma SnapIsElsewhere(tag: string, f: Path, g: Path)
    requires tag != ".." && f in Tracked() && g in Tracked()
    ensures Resolve(SnapDir(tag) + f) != Resolve([] + g)
  {
    PathsOf(tag, f);
    PathsOf(tag, g);
    assert SnapPath(tag, f)[0] == "snapshots";
    NotUnderSnapshots(g);
  }

  lemma NotUnderSnapshots(g: Path)
    requires g in SnapFiles()
    ensures g != [] && g[0] != "snapshots"
  {
    assert |"snapshots"| == 9 && "snapshots"[0] == 's';
    assert |APP[0]| == 8 && |PREFIX[0]| == 11 && |CURRENT[0]| == 8 && LABEL[0][0] == 'l';
  }

  // Tracked files differ in their last component.
  function Last(p: Path): string
    requires p != []
  {
    p[|p| - 1]
  }

  lemma LastsDiffer(i: nat, j: nat)
    requires i < j < |SnapFiles()|
    ensures Last(SnapFiles()[i]) != Last(SnapFiles()[j])
  {
    var all := [Last(APP), Last(PREFIX), Last(CURRENT), Last(LABEL)];
    assert |all[0]| == 8 && |all[1]| == 11 && |all[2]| == 15 && |all[3]| == 9;
    assert all[i] == Last(SnapFiles()[i]) && all[j] == Last(SnapFiles()[j]);
  }

  lemma SnapPathLast(tag: string, f: Path)
    requires f != []
    ensures SnapPath(tag, f) != [] && Last(SnapPath(tag, f)) == Last(f)
  {
  }

  lemma TrackedDiffer(tag: string, i: nat, j: nat)
    requires i < j < |Tracked()|
    ensures Resolve([] + Tracked()[i]) != Resolve([] + Tracked()[j])
    ensures Resolve(SnapDir(tag) + Tracked()[i]) != Resolve(SnapDir(tag) + Tracked()[j])
  {
    var f, g := Tracked()[i], Tracked()[j];
    PathsOf(tag, f);
    PathsOf(tag, g);
    assert SnapFiles()[i] == f && SnapFiles()[j] == g;
    LastsDiffer(i, j);
    SnapPathLast(tag, f);
    SnapPathLast(tag, g);
  }

  // Copying to and from a snapshot other than "..".
  lemma SnapshotApart(tag: string)
    requires tag != ".."
    ensures Apart([], SnapDir(tag), Tracked()) && Apart(SnapDir(tag), [], Tracked())
  {
    forall f, g | f in Tracked() && g in Tracked()
      ensures Resolve(SnapDir(tag) + f) != Resolve([] + g)
    {
      SnapIsElsewhere(tag, f, g);
    }
    forall i, j | 0 <= i < j < |Tracked()|
      ensures Resolve([] + Tracked()[i]) != Resolve([] + Tracked()[j])
      ensures Resolve(SnapDir(tag) + Tracked()[i]) != Resolve(SnapDir(tag) + Tracked()[j])
    {
      TrackedDiffer(tag, i, j);
    }
  }

  // A successful snapshot holds a copy of every tracked file.
  lemma SnapshotCopies(t: Tree, tag: string, f: Path)
    requires tag != ".." && f in Tracked() && IsFile(t, f) && Snapshot(t, tag).ok
    ensures Holds(Snapshot(t, tag).tree, SnapDir(tag) + f, TextOf(t, f))
  {
    var m := Mkdir(t, SnapDir(tag));
    MkdirFrame(t, SnapDir(tag));
    FileStays(t, m.tree, {}, f);
    CopiedOut(m.tree, tag, f);
  }

  lemma CopiedOut(m: Tree, tag: string, f: Path)
    requires tag != ".." && f in Tracked() && IsFile(m, f)
    requires CopyAll(m, [], SnapDir(tag), Tracked()).ok
    ensures var c := CopyAll(m, [], SnapDir(tag), Tracked());
      Holds(Write(c.tree, SnapDir(tag) + LABEL, tag).tree, SnapDir(tag) + f, TextOf(m, f))
  {
    var c := CopyAll(m, [], SnapDir(tag), Tracked());
    SnapshotApart(tag);
    assert [] + f == f;
    CopyAllContent(m, [], SnapDir(tag), Tracked(), f);
    WriteFrame(c.tree, SnapDir(tag) + LABEL, tag);
    LabelElsewhere(tag, f);
    FileStays(c.tree, Write(c.tree, SnapDir(tag) + LABEL, tag).tree,
              {Resolve(SnapDir(tag) + LABEL)}, SnapDir(tag) + f);
  }

  lemma LabelElsewhere(tag: string, f: Path)
    requires f in Tracked()
    ensures Resolve(SnapDir(tag) + f) != Resolve(SnapDir(tag) + LABEL)
  {
    assert f in SnapFiles() && LABEL in SnapFiles();
    SnapPathIs(tag, f);
    SnapPathIs(tag, LABEL);
    LabelApart(tag, f);
  }

  lemma LabelApart(tag: string, f: Path)
    requires f in Tracked()
    ensures SnapPath(tag, f) != SnapPath(tag, LABEL)
  {
    var i :| 0 <= i < |Tracked()| && Tracked()[i] == f;
    assert SnapFiles()[i] == f && SnapFiles()[3] == LABEL;
    LastsDiffer(i, 3);
    SnapPathLast(tag, f);
    SnapPathLast(tag, LABEL);
  }

  // Every tracked file of one tree has the same content in the other.
  ghost predicate Restored(was: Tree, now: Tree) {
    forall f | f in Tracked() && IsFile(was, f) :: Holds(now, f, TextOf(was, f))
  }

  // Whatever is done after a snapshot, short of taking one with the same label again,
  // rolling back gives the tracked files their content at snapshot time and touches no
  // other file.
  lemma RollbackRestores(was: Tree, tag: string, ops: seq<Op>)
    requires tag != ".." && Snapshot(was, tag).ok && TakeSnapshot(tag) !in ops
    ensures var now := Run(Snapshot(was, tag).tree, ops);
      && Frame(now, Rollback(now, tag).tree, {APP, PREFIX, CURRENT})
      && (Rollback(now, tag).ok ==> Restored(was, Rollback(now, tag).tree))
  {
    var snap := Snapshot(was, tag).tree;
    var now := Run(snap, ops);
    RollbackFrame(now, tag);
    RunKeeps(snap, ops, tag);
    if Rollback(now, tag).ok {
      forall f | f in Tracked() && IsFile(was, f)
        ensures Holds(Rollback(now, tag).tree, f, TextOf(was, f))
      {
        SnapshotCopies(was, tag, f);
        ComesBack(snap, tag, now, f);
      }
    }
  }

  lemma ComesBack(snap: Tree, tag: string, now: Tree, f: Path)
    requires tag != ".." && Keeps(snap, now, SnapSet(tag))
    requires f in Tracked() && IsFile(snap, SnapDir(tag) + f) && Rollback(now, tag).ok
    ensures Holds(Rollback(now, tag).tree, f, TextOf(snap, SnapDir(tag) + f))
  {
    SnapshotApart(tag);
    FileKept(snap, now, SnapSet(tag), SnapDir(tag) + f);
    CopyAllContent(now, SnapDir(tag), [], Tracked(), f);
    assert [] + f == f;
  }

  // ---- fresh labels ----

  // None of the snapshot's files exist; never so for "..", whose files are the workspace's.
  ghost predicate Fresh(t: Tree, tag: string) {
    forall f | f in SnapFiles() :: Resolve(SnapDir(tag) + f) !in t
  }

  // A fresh snapshot holds exactly the tracked files that existed.
  lemma FreshSnapshotHolds(t: Tree, tag: string, f: Path)
    requires tag != ".." && Fresh(t, tag) && Snapshot(t, tag).ok && f in Tracked()
    requires HasFile(Snapshot(t, tag).tree, Resolve(SnapDir(tag) + f))
    ensures HasFile(t, f)
  {
    var m := Mkdir(t, SnapDir(tag));
    MkdirFrame(t, SnapDir(tag));
    assert f in SnapFiles();
    var c := CopyAll(m.tree, [], SnapDir(tag), Tracked());
    WriteFrame(c.tree, SnapDir(tag) + LABEL, tag);
    LabelElsewhere(tag, f);
    CopiedFromSource(m.tree, tag, f);
    PathsOf(tag, f);
  }

  // A snapshot file made by the copying has its source.
  lemma CopiedFromSource(m: Tree, tag: string, f: Path)
    requires tag != ".." && f in Tracked() && !HasFile(m, Resolve(SnapDir(tag) + f))
    requires HasFile(CopyAll(m, [], SnapDir(tag), Tracked()).tree, Resolve(SnapDir(tag) + f))
    ensures HasFile(m, Resolve([] + f))
  {
    SnapshotApart(tag);
    CopyAllFrameOf(m, [], SnapDir(tag), Tracked());
    var p := Resolve(SnapDir(tag) + f);
    var g :| g in Tracked() && HasFile(m, Resolve([] + g)) && Resolve(SnapDir(tag) + g) == p;
    SameSnapPath(tag, f, g);
  }

  lemma SameSnapPath(tag: string, f: Path, g: Path)
    requires f in Tracked() && g in Tracked()
    requires Resolve(SnapDir(tag) + f) == Resolve(SnapDir(tag) + g)
    ensures f == g
  {
    var i :| 0 <= i < |Tracked()| && Tracked()[i] == f;
    var j :| 0 <= j < |Tracked()| && Tracked()[j] == g;
    if i < j {
      TrackedDiffer(tag, i, j);
    } else if j < i {
      TrackedDiffer(tag, j, i);
    }
  }

  lemma TopIsFile(t: Tree, f: Path)
    requires WellFormed(t) && |f| == 1 && Resolve(f) == f && HasFile(t, f)
    ensures IsFile(t, f)
  {
    assert f[..0] == [];
  }

  lemma CurrentIsFile(t: Tree)
    requires WellFormed(t) && HasFile(t, CURRENT)
    ensures IsFile(t, CURRENT)
  {
    var dir := ["profiles"];
    assert CURRENT[..1] == dir && dir[..0] == [];
    Fixed("");
    PlainPath(dir);
    assert IsDir(t, dir);
  }

  lemma TrackedIsFile(t: Tree, f: Path)
    requires WellFormed(t) && f in Tracked() && HasFile(t, f)
    ensures IsFile(t, f)
  {
    if f == CURRENT {
      CurrentIsFile(t);
    } else {
      TopIsTracked(f);
      TopIsFile(t, f);
    }
  }

  lemma TopIsTracked(f: Path)
    requires f in Tracked() && f != CURRENT
    ensures |f| == 1 && Resolve(f) == f
  {
    assert f == APP || f == PREFIX;
    assert |APP[0]| == 8 && |PREFIX[0]| == 11;
    PlainPath(f);
  }

  lemma SnapshotMakesDir(t: Tree, tag: string)
    requires tag != ".." && IsFile(t, APP) && Snapshot(t, tag).ok
    ensures IsDir(Snapshot(t, tag).tree, SnapDir(tag))
  {
    SnapshotCopies(t, tag, APP);
    assert (SnapDir(tag) + APP)[..2] == SnapDir(tag);
  }

  // A file found in the snapshot is one that existed, and so still exists.
  lemma FreshSourceExists(was: Tree, tag: string, now: Tree, f: Path)
    requires WellFormed(was) && tag != ".." && Fresh(was, tag) && Snapshot(was, tag).ok
    requires Keeps(Snapshot(was, tag).tree, now, SnapSet(tag))
    requires f in Tracked() && HasFile(now, Resolve(SnapDir(tag) + f))
    ensures IsFile(was, f) && IsFile(now, [] + f)
  {
    assert Resolve(SnapDir(tag) + f) in SnapSet(tag);
    FreshSnapshotHolds(was, tag, f);
    TrackedIsFile(was, f);
    TrackedStays(was, tag, now, f);
  }

  lemma TrackedStays(was: Tree, tag: string, now: Tree, f: Path)
    requires f in Tracked() && IsFile(was, f)
    requires Keeps(Snapshot(was, tag).tree, now, SnapSet(tag))
    ensures IsFile(now, [] + f)
  {
    var snap := Snapshot(was, tag).tree;
    SnapshotFrame(was, tag);
    FileStays(was, snap, Targets(SnapDir(tag), SnapFiles()), f);
    FileKept(snap, now, SnapSet(tag), f);
    assert [] + f == f;
  }

  ghost function Existing(t: Tree): set<Path> {
    set f | f in Tracked() && IsFile(t, f)
  }

  // With a fresh label rolling back always succeeds, restores the tracked files that
  // existed and touches nothing else.
  lemma FreshRollback(was: Tree, tag: string, ops: seq<Op>)
    requires WellFormed(was) && IsFile(was, APP) && Fresh(was, tag)
    requires Snapshot(was, tag).ok && TakeSnapshot(tag) !in ops
    ensures var now := Run(Snapshot(was, tag).tree, ops);
      && Rollback(now, tag).ok
      && Restored(was, Rollback(now, tag).tree)
      && Frame(now, Rollback(now, tag).tree, Existing(was))
  {
    FreshIsNotUp(was, tag);
    var snap := Snapshot(was, tag).tree;
    var now := Run(snap, ops);
    RunKeeps(snap, ops, tag);
    FreshSources(was, tag, now);
    CopiesBack(was, tag, now);
    RollbackStarts(was, tag, now);
    RollbackRestores(was, tag, ops);
  }

  // Every file found in the snapshot existed when it was taken, and still exists.
  ghost predicate SourcesExist(was: Tree, tag: string, now: Tree) {
    forall f | f in Tracked() && HasFile(now, Resolve(SnapDir(tag) + f)) ::
      IsFile(was, f) && IsFile(now, [] + f)
  }

  lemma FreshSources(was: Tree, tag: string, now: Tree)
    requires WellFormed(was) && Fresh(was, tag) && tag != ".."
    requires Snapshot(was, tag).ok && Keeps(Snapshot(was, tag).tree, now, SnapSet(tag))
    ensures SourcesExist(was, tag, now)
  {
    forall f | f in Tracked() && HasFile(now, Resolve(SnapDir(tag) + f))
      ensures IsFile(was, f) && IsFile(now, [] + f)
    {
      FreshSourceExists(was, tag, now, f);
    }
  }

  lemma CopiesBack(was: Tree, tag: string, now: Tree)
    requires SourcesExist(was, tag, now) && tag != ".."
    ensures var c := CopyAll(now, SnapDir(tag), [], Tracked());
      c.ok && Frame(now, c.tree, Existing(was))
  {
    SnapshotApart(tag);
    CopyAllOntoFiles(now, SnapDir(tag), [], Tracked());
    CopyAllFrameOf(now, SnapDir(tag), [], Tracked());
    FreshTargets(was, tag, now);
    FrameWiden(now, CopyAll(now, SnapDir(tag), [], Tracked()).tree,
               TargetsOf(now, SnapDir(tag), [], Tracked()), Existing(was));
  }

  lemma RollbackStarts(was: Tree, tag: string, now: Tree)
    requires IsFile(was, APP) && tag != ".."
    requires Snapshot(was, tag).ok && Keeps(Snapshot(was, tag).tree, now, SnapSet(tag))
    ensures Rollback(now, tag) == CopyAll(now, SnapDir(tag), [], Tracked())
  {
    SnapshotMakesDir(was, tag);
    DirKept(Snapshot(was, tag).tree, now, SnapSet(tag), SnapDir(tag));
    TrackedStays(was, tag, now, APP);
    assert [] + APP == APP;
  }

  lemma FreshTargets(was: Tree, tag: string, now: Tree)
    requires SourcesExist(was, tag, now)
    ensures TargetsOf(now, SnapDir(tag), [], Tracked()) <= Existing(was)
  {
    forall f | f in Tracked() && HasFile(now, Resolve(SnapDir(tag) + f))
      ensures Resolve([] + f) in Existing(was)
    {
      PathsOf(tag, f);
    }
  }

  lemma FreshIsNotUp(t: Tree, tag: string)
    requires IsFile(t, APP) && Fresh(t, tag)
    ensures tag != ".."
  {
    Fixed("");
    assert APP in SnapFiles();
    SnapPathIs(tag, APP);
  }

  lemma DirKept(a: Tree, b: Tree, kept: set<Path>, comps: seq<string>)
    requires Keeps(a, b, kept) && IsDir(a, comps)
    ensures IsDir(b, comps)
  {
    KeepsIsFrame(a, b, kept);
    var touched: set<Path> :| Frame(a, b, touched) && touched !! kept;
    DirStays(a, b, touched, comps);
  }

  // ---- the label ".." ----

  ghost predicate AllEmpty(t: Tree) {
    forall f | f in Tracked() && IsFile(t, f) :: TextOf(t, f) == ""
  }

  // The snapshot ".." is the workspace itself: taking it empties every tracked file.
  lemma SnapshotUpEmpties(t: Tree, f: Path)
    requires f in Tracked() && IsFile(t, f) && Snapshot(t, "..").ok
    ensures Holds(Snapshot(t, "..").tree, f, "")
  {
    var tag := "..";
    var m := Mkdir(t, SnapDir(tag));
    MkdirFrame(t, SnapDir(tag));
    FileStays(t, m.tree, {}, f);
    assert [] + f == f;
    UpIsItself();
    CopyAllOntoItself(m.tree, [], SnapDir(tag), Tracked(), f);
    var c := CopyAll(m.tree, [], SnapDir(tag), Tracked());
    PathsOf(tag, f);
    CopyAllFrame(m.tree, [], SnapDir(tag), Tracked());
    FileStays(m.tree, c.tree, Targets(SnapDir(tag), Tracked()), f);
    WriteFrame(c.tree, SnapDir(tag) + LABEL, tag);
    assert LABEL in SnapFiles();
    SnapPathIs(tag, LABEL);
    LabelApart(tag, f);
    FileStays(c.tree, Snapshot(t, tag).tree, {Resolve(SnapDir(tag) + LABEL)}, f);
  }

  lemma UpIsItself()
    ensures forall g <- Tracked() :: |g| > 0 && Resolve([] + g) == Resolve(SnapDir("..") + g)
    ensures forall i, j | 0 <= i < j < |Tracked()| ::
      Resolve(SnapDir("..") + Tracked()[i]) != Resolve(SnapDir("..") + Tracked()[j])
      && Resolve([] + Tracked()[i]) != Resolve([] + Tracked()[j])
  {
    forall g | g in Tracked()
      ensures |g| > 0 && Resolve([] + g) == Resolve(SnapDir("..") + g)
    {
      PathsOf("..", g);
    }
    forall i, j | 0 <= i < j < |Tracked()|
      ensures Resolve(SnapDir("..") + Tracked()[i]) != Resolve(SnapDir("..") + Tracked()[j])
      ensures Resolve([] + Tracked()[i]) != Resolve([] + Tracked()[j])
    {
      TrackedDiffer("..", i, j);
    }
  }

  lemma RollbackUpEmpties(t: Tree, f: Path)
    requires f in Tracked() && IsFile(t, SnapDir("..") + f) && Rollback(t, "..").ok
    ensures Holds(Rollback(t, "..").tree, f, "")
  {
    UpIsItself();
    CopyAllOntoItself(t, SnapDir(".."), [], Tracked(), f);
    assert [] + f == f;
  }

  // Nothing disappears or changes its kind in any run.
  lemma {:induction false} RunKeepsKinds(t: Tree, ops: seq<Op>)
    ensures Keeps(t, Run(t, ops), {})
    decreases |ops|
  {
    if ops != [] {
      OpFrame(t, ops[0]);
      RunKeepsKinds(Apply(t, ops[0]).tree, ops[1..]);
    }
  }

  // Whatever is done in between, rolling back restores the tracked files if and only if the
  // label is not ".." or they were all empty anyway.
  lemma RestoresIff(was: Tree, tag: string, ops: seq<Op>)
    requires Snapshot(was, tag).ok && TakeSnapshot(tag) !in ops
    requires Rollback(Run(Snapshot(was, tag).tree, ops), tag).ok
    ensures Restored(was, Rollback(Run(Snapshot(was, tag).tree, ops), tag).tree)
      <==> tag != ".." || AllEmpty(was)
  {
    var snap := Snapshot(was, tag).tree;
    var now := Run(snap, ops);
    if tag != ".." {
      RollbackRestores(was, tag, ops);
    } else {
      RunKeepsKinds(snap, ops);
      forall f | f in Tracked() && IsFile(was, f)
        ensures Holds(Rollback(now, tag).tree, f, "")
      {
        SnapshotUpEmpties(was, f);
        FileKept(snap, now, {}, f);
        UpReachable(now, f);
        RollbackUpEmpties(now, f);
      }
    }
  }

  lemma UpReachable(snap: Tree, f: Path)
    requires f in Tracked() && IsFile(snap, f) && IsDir(snap, SnapDir(".."))
    ensures IsFile(snap, SnapDir("..") + f)
  {
    PathsOf("..", f);
    assert [] + f == f;
    if f == CURRENT {
      UpProfiles(snap);
      WayTo(SnapDir(".."), f, ["profiles"]);
    } else {
      WayTo(SnapDir(".."), f, []);
      assert SnapDir("..") + [] == SnapDir("..");
    }
  }

  lemma WayTo(d: seq<string>, f: Path, way: Path)
    requires f != [] && f[..|f| - 1] == way
    ensures (d + f)[..|d + f| - 1] == d + way
  {
  }

  lemma UpProfiles(t: Tree)
    requires IsFile(t, CURRENT) && IsDir(t, SnapDir(".."))
    ensures IsDir(t, SnapDir("..") + ["profiles"])
  {
    var d, top := SnapDir(".."), ["profiles"];
    var dir := d + top;
    assert dir[..|dir| - 1] == d && CURRENT[..|CURRENT| - 1] == top;
    ResolvePlain(d, top);
    UpIsRoot();
    PlainPath(top);
    assert [] + top == top;
  }

  lemma UpReachedCurrent(t: Tree)
    requires IsFile(t, SnapDir("..") + CURRENT)
    ensures IsFile(t, CURRENT)
  {
    var d, top := SnapDir(".."), ["profiles"];
    var dir := d + top;
    var below := d + CURRENT;
    assert below[..|below| - 1] == dir && dir[..|dir| - 1] == d;
    assert IsDir(t, dir) && IsDir(t, d);
    UpIsRoot();
    ResolvePlain(d, top);
    PathsOf("..", CURRENT);
    PlainPath(top);
    Fixed("");
    assert CURRENT[..|CURRENT| - 1] == top && top[..|top| - 1] == [];
    assert [] + top == top;
    assert IsDir(t, top);
  }

  lemma UpReached(t: Tree, f: Path)
    requires f in Tracked() && IsFile(t, SnapDir("..") + f)
    ensures IsFile(t, [] + f)
  {
    assert [] + f == f;
    if f == CURRENT {
      UpReachedCurrent(t);
    } else {
      var below := SnapDir("..") + f;
      assert below[..|below| - 1] == SnapDir("..") && f[..|f| - 1] == [];
      PathsOf("..", f);
      UpIsRoot();
    }
  }

  lemma UpMkdir(t: Tree)
    requires IsDir(t, []) && !HasFile(t, ["snapshots"])
    ensures Mkdir(t, SnapDir("..")).ok && IsDir(Mkdir(t, SnapDir("..")).tree, SnapDir(".."))
  {
    var d, s := SnapDir(".."), ["snapshots"];
    assert d[..|d| - 1] == s && s[..|s| - 1] == [];
    PlainPath(s);
    UpIsRoot();
    assert Mkdir(t, s[..|s| - 1]) == Outcome(t, true);
    var above := Mkdir(t, s);
    assert above.ok && IsDir(above.tree, s);
  }

  lemma UpCopies(m: Tree)
    requires IsDir(m, SnapDir(".."))
    ensures CopyAll(m, [], SnapDir(".."), Tracked()).ok
  {
    UpIsItself();
    forall f | f in Tracked() && IsFile(m, [] + f)
      ensures IsFile(m, SnapDir("..") + f)
    {
      assert [] + f == f;
      UpReachable(m, f);
    }
    CopyAllOntoItselfSucceeds(m, [], SnapDir(".."), Tracked());
  }

  lemma UpSnapshot(t: Tree)
    requires IsDir(t, []) && !HasFile(t, ["snapshots"]) && Loads(t)
    ensures Snapshot(t, "..").ok
  {
    UpMkdir(t);
    UpCopies(Mkdir(t, SnapDir("..")).tree);
  }

  // In a workspace with settings to lose, the label ".." is accepted, both calls report
  // success, and the settings are gone.
  lemma UpLosesSettings(t: Tree)
    requires IsDir(t, []) && !HasFile(t, ["snapshots"])
    requires IsFile(t, APP) && TextOf(t, APP) != ""
    ensures var snap := Snapshot(t, "..");
      && snap.ok && Rollback(snap.tree, "..").ok
      && Holds(Rollback(snap.tree, "..").tree, APP, "")
      && !Restored(t, Rollback(snap.tree, "..").tree)
  {
    assert APP in Tracked();
    UpSnapshot(t);
    var snap := Snapshot(t, "..").tree;
    SnapshotUpEmpties(t, APP);
    UpRollback(t, snap);
    RollbackUpEmpties(snap, APP);
  }

  lemma UpRollback(t: Tree, snap: Tree)
    requires IsDir(t, []) && !HasFile(t, ["snapshots"])
    requires Snapshot(t, "..") == Outcome(snap, true) && IsFile(snap, APP)
    ensures Rollback(snap, "..").ok && IsFile(snap, SnapDir("..") + APP)
  {
    UpMkdir(t);
    var d := SnapDir("..");
    var m := Mkdir(t, d).tree;
    CopyAllFrame(m, [], d, Tracked());
    var c := CopyAll(m, [], d, Tracked()).tree;
    DirStays(m, c, Targets(d, Tracked()), d);
    WriteFrame(c, d + LABEL, "..");
    DirStays(c, snap, {Resolve(d + LABEL)}, d);
    UpReachable(snap, APP);
    UpIsItself();
    forall f | f in Tracked() && IsFile(snap, d + f)
      ensures IsFile(snap, [] + f)
    {
      UpReached(snap, f);
    }
    CopyAllOntoItselfSucceeds(snap, d, [], Tracked());
  }

  lemma UpIsRoot()
    ensures Resolve(SnapDir("..")) == []
  {
    var d := SnapDir("..");
    assert d[..1] == ["snapshots"] && d[..1][..0] == [];
    assert Resolve(d[..1]) == ["snapshots"] && ["snapshots"][..0] == [];
  }

  // After a save, a snapshot, any run and a rollback, loading finds the saved record.
  lemma SavedRecordComesBack(was: Tree, w: Workspace.Record, tag: string, ops: seq<Op>)
    requires WellFormed(was) && Fresh(was, tag) && Snapshot(was, tag).ok && TakeSnapshot(tag) !in ops
    requires Workspace.Savable(w) && Holds(was, APP, Workspace.Saved(w))
    ensures var back := Rollback(Run(Snapshot(was, tag).tree, ops), tag);
      && back.ok && IsFile(back.tree, APP)
      && Workspace.Loaded(TextOf(back.tree, APP), w.name, w.path) == Workspace.Reloaded(w)
  {
    FreshRollback(was, tag, ops);
    assert APP in Tracked();
    Workspace.LoadOfSave(w);
  }
}
