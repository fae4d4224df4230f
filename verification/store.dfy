// The snapshot operations as they run, changing the workspace's files step by step.
module Store {
  import opened Status
  import opened Tree
  import opened Snapshots

  lemma {:induction false} MkdirStops(t: Tree, comps: seq<string>, i: nat)
    requires i <= |comps| && !Mkdir(t, comps[..i]).ok
    ensures Mkdir(t, comps) == Mkdir(t, comps[..i])
    decreases |comps|
  {
    if i < |comps| {
      var front := comps[..|comps| - 1];
      assert front[..i] == comps[..i];
      MkdirStops(t, front, i);
    } else {
      assert comps[..i] == comps;
    }
  }

  class WorkspaceFiles {
    var tree: Tree

    constructor (tree: Tree)
      ensures this.tree == tree
    {
      this.tree := tree;
    }

    // cellar_mkdir_p
    method MkdirP(comps: seq<string>) returns (ok: bool)
      modifies this
      ensures Outcome(tree, ok) == Mkdir(old(tree), comps)
    {
      for i := 0 to |comps|
        invariant Outcome(tree, true) == Mkdir(old(tree), comps[..i])
      {
        var prefix := comps[..i + 1];
        assert prefix[..|prefix| - 1] == comps[..i];
        if !Reachable(tree, prefix) {
          MkdirStops(old(tree), comps, i + 1);
          return false;
        }
        if Resolve(prefix) !in tree {
          tree := tree[Resolve(prefix) := Dir];
        }
      }
      assert comps[..|comps|] == comps;
      return true;
    }

    // copy_file: the target is truncated before the first byte is read.
    method CopyFile(src: seq<string>, dst: seq<string>) returns (ok: bool)
      requires |dst| > 0
      modifies this
      ensures Outcome(tree, ok) == Copy(old(tree), src, dst)
    {
      ok := MkdirP(dst[..|dst| - 1]);
      if !ok || !IsFile(tree, src) {
        return false;
      }
      var source := Resolve(src);
      var before := tree;
      if !Reachable(tree, dst) || (Resolve(dst) in tree && tree[Resolve(dst)].Dir?) {
        return false;
      }
      tree := tree[Resolve(dst) := File("")];
      var read := tree[source].text;
      tree := tree[Resolve(dst) := File(read)];
      assert tree == before[Resolve(dst) := File(read)];
      return true;
    }

    method CopyTracked(from: seq<string>, to: seq<string>) returns (ok: bool)
      modifies this
      ensures Outcome(tree, ok) == CopyAll(old(tree), from, to, Tracked())
    {
      var files := Tracked();
      for i := 0 to |files|
        invariant CopyAll(tree, from, to, files[i..]) == CopyAll(old(tree), from, to, files)
      {
        assert files[i..][1..] == files[i + 1..];
        if IsFile(tree, from + files[i]) {
          ok := CopyFile(from + files[i], to + files[i]);
          if !ok {
            return false;
          }
        }
      }
      return true;
    }

    // cellar_workspace_snapshot
    method TakeSnapshot(tag: string) returns (status: Status)
      modifies this
      ensures Outcome(tree, status == Ok) == Snapshot(old(tree), tag)
      ensures status in {Ok, InvalidArgument}
    {
      if tag == "" || '/' in tag || !Loads(tree) {
        return InvalidArgument;
      }
      var ok := MkdirP(SnapDir(tag));
      if !ok {
        return InvalidArgument;
      }
      ok := CopyTracked([], SnapDir(tag));
      if !ok {
        return InvalidArgument;
      }
      tree := Write(tree, SnapDir(tag) + LABEL, tag).tree;
      return Ok;
    }

    // cellar_workspace_rollback for a label without '/'
    method RollBack(tag: string) returns (status: Status)
      modifies this
      ensures Outcome(tree, status == Ok) == Rollback(old(tree), tag)
      ensures status in {Ok, InvalidArgument}
    {
      if tag == "" || !Loads(tree) || !IsDir(tree, SnapDir(tag)) {
        return InvalidArgument;
      }
      var ok := CopyTracked(SnapDir(tag), []);
      return if ok then Ok else InvalidArgument;
    }
  }
}
