// What the workspace's operations leave in its files, beside the files they do not touch.
module Effects {
  import opened Tree
  import opened Snapshots
  import Settings
  import Profile

  // A run is its operations one after the other.
  lemma {:induction false} RunAppend(t: Tree, a: seq<Op>, b: seq<Op>)
    ensures Run(t, a + b) == Run(Run(t, a), b)
    ensures forall op: Op :: Run(t, [op]) == Apply(t, op).tree
    decreases |a|
  {
    forall op: Op
      ensures Run(t, [op]) == Apply(t, op).tree
    {
      assert [op][1..] == [];
    }
    if a == [] {
      assert a + b == b;
    } else {
      RunAppend(Apply(t, a[0]).tree, a[1..], b);
      assert (a + b)[1..] == a[1..] + b;
    }
  }

  // The record can be loaded exactly when app.conf is there; without it nothing is done.
  lemma LoadsIff(t: Tree, tag: string, conf: string, text: string)
    requires WellFormed(t)
    ensures Loads(t) <==> APP in t
    ensures APP !in t ==>
      && Snapshot(t, tag) == Outcome(t, false) && Rollback(t, tag) == Outcome(t, false)
      && ApplyProfile(t, conf, tag, text) == Outcome(t, false)
  {
    Fixed("");
    assert APP[..|APP| - 1] == [];
  }

  // A setting is stored as the edited text of prefix.conf, if there is one.
  lemma SettingStored(t: Tree, key: string, value: string)
    ensures SetSetting(t, key, value).ok <==> key != "" && IsFile(t, PREFIX)
    ensures SetSetting(t, key, value).ok ==>
      Holds(SetSetting(t, key, value).tree, PREFIX, Settings.Set(TextOf(t, PREFIX), key, value))
    ensures !SetSetting(t, key, value).ok ==> SetSetting(t, key, value).tree == t
  {
    if IsFile(t, PREFIX) {
      WriteFrame(t, PREFIX, Settings.Set(TextOf(t, PREFIX), key, value));
    }
  }

  // A profile is stored under its label, for which there must be one and no directory in the way.
  lemma ProfileStored(t: Tree, tag: string, text: string)
    requires WellFormed(t)
    ensures SaveProfile(t, tag, text).ok <==>
      tag != "" && !HasFile(t, ["profiles"]) && !HasDir(t, ["profiles", tag + ".profile"])
    ensures SaveProfile(t, tag, text).ok ==>
      Holds(SaveProfile(t, tag, text).tree, ["profiles", tag + ".profile"], text)
    ensures tag == "" ==> SaveProfile(t, tag, text).tree == t
  {
    Fixed(tag);
    var m := Mkdir(t, ["profiles"]);
    ProfilesMade(t);
    WriteFrame(m.tree, ProfileFile(tag), text);
    Reached(m.tree, tag);
  }

  // The directory of the profiles is there afterwards, unless a file has its name.
  lemma ProfilesMade(t: Tree)
    requires WellFormed(t)
    ensures var m := Mkdir(t, ["profiles"]);
      && m.ok && m.tree == (if ["profiles"] in t then t else t[["profiles"] := Dir])
      && (IsDir(m.tree, ["profiles"]) <==> !HasFile(t, ["profiles"]))
  {
    var dir := ["profiles"];
    PlainPath(dir);
    assert dir[..|dir| - 1] == [] && Mkdir(t, []) == Outcome(t, true);
  }

  lemma Reached(t: Tree, tag: string)
    ensures Reachable(t, ProfileFile(tag)) <==> IsDir(t, ["profiles"])
    ensures ProfileFile(tag) != ["profiles"]
  {
    assert ProfileFile(tag)[..|ProfileFile(tag)| - 1] == ["profiles"];
  }

  predicate HasDir(t: Tree, p: Path) { p in t && t[p].Dir? }

  // Applying a profile stores the record; nothing else where its label is the active one.
  lemma ActiveApplied(t: Tree, conf: string, tag: string, text: string)
    requires ApplyProfile(t, conf, tag, text).ok && CurrentLabel(t) == tag
    ensures var u := ApplyProfile(t, conf, tag, text).tree;
      Holds(u, APP, conf) && u == t[APP := File(conf)]
  {
    Fixed(tag);
    WriteFrame(t, APP, conf);
    SameLabel(t, conf);
  }

  // Otherwise it also stores the profile, and makes it the active one unless a directory is in
  // the way.
  lemma ProfileApplied(t: Tree, conf: string, tag: string, text: string)
    requires WellFormed(t) && ApplyProfile(t, conf, tag, text).ok && CurrentLabel(t) != tag
    ensures var u := ApplyProfile(t, conf, tag, text).tree;
      && Holds(u, APP, conf) && Holds(u, ["profiles", tag + ".profile"], text)
      && (!HasDir(t, CURRENT) ==> Holds(u, CURRENT, text))
  {
    var s := Write(t, APP, conf);
    WriteFrame(t, APP, conf);
    SameLabel(t, conf);
    var p := SaveProfile(s.tree, tag, text);
    SaveProfileKeeps(s.tree, conf, tag, text);
    SameDirs(t, conf, tag, text);
    ActiveWritten(p.tree, t, conf, tag, text);
  }

  // Applying succeeds exactly when there is a record to load and to write, and the profile can be
  // stored unless it is the active one.
  lemma ApplyOkIff(t: Tree, conf: string, tag: string, text: string)
    requires WellFormed(t)
    ensures ApplyProfile(t, conf, tag, text).ok <==>
      && HasFile(t, APP)
      && (CurrentLabel(t) == tag
          || (tag != "" && !HasFile(t, ["profiles"]) && !HasDir(t, ["profiles", tag + ".profile"])))
  {
    if HasFile(t, APP) {
      SaveOkIff(t, conf, tag, text);
      AppliesWithRecord(t, conf, tag, text);
    } else {
      RefusedWithoutRecord(t, conf, tag, text);
    }
  }

  lemma RefusedWithoutRecord(t: Tree, conf: string, tag: string, text: string)
    requires WellFormed(t) && !HasFile(t, APP)
    ensures !ApplyProfile(t, conf, tag, text).ok
  {
    LoadsIff(t, tag, conf, text);
    AppWritten(t, conf);
  }

  lemma AppliesWithRecord(t: Tree, conf: string, tag: string, text: string)
    requires WellFormed(t) && HasFile(t, APP)
    ensures ApplyProfile(t, conf, tag, text).ok <==>
      CurrentLabel(t) == tag || SaveProfile(t[APP := File(conf)], tag, text).ok
  {
    LoadsIff(t, tag, conf, text);
    AppWritten(t, conf);
    SameLabel(t, conf);
  }

  lemma SaveOkIff(t: Tree, conf: string, tag: string, text: string)
    requires WellFormed(t) && HasFile(t, APP)
    ensures SaveProfile(t[APP := File(conf)], tag, text).ok <==>
      tag != "" && !HasFile(t, ["profiles"]) && !HasDir(t, ["profiles", tag + ".profile"])
  {
    StaysWellFormed(t, t[APP := File(conf)], conf);
    ProfileStored(t[APP := File(conf)], tag, text);
    AppIsOther(tag);
  }

  lemma AppWritten(t: Tree, conf: string)
    requires WellFormed(t)
    ensures Write(t, APP, conf).ok <==> !HasDir(t, APP)
    ensures !HasDir(t, APP) ==> Write(t, APP, conf).tree == t[APP := File(conf)]
  {
    PlainApp();
    assert Reachable(t, APP);
  }

  lemma PlainApp()
    ensures Resolve(APP) == APP && APP[..|APP| - 1] == [] && Resolve([]) == []
  {
    PlainPath(APP);
  }

  lemma AppIsOther(tag: string)
    ensures APP != ["profiles"] && APP != ["profiles", tag + ".profile"]
  {
    assert |APP| == 1 && APP[0][0] == 'a' && ["profiles"][0][0] == 'p';
  }

  // After applying a profile whose text says its label, that label is the active one.
  lemma AppliedIsActive(t: Tree, conf: string, tag: string, text: string)
    requires WellFormed(t) && !HasDir(t, CURRENT) && ApplyProfile(t, conf, tag, text).ok
    requires |text| < PROFILE_BUFFER && '\0' !in text && LabelOf(text) == tag
    ensures CurrentLabel(ApplyProfile(t, conf, tag, text).tree) == tag
  {
    if CurrentLabel(t) == tag {
      ActiveApplied(t, conf, tag, text);
      SameLabel(t, conf);
    } else {
      ProfileApplied(t, conf, tag, text);
    }
  }

  function LabelOf(text: string): string {
    var p := Profile.Parsed(text);
    if Profile.Label in p.texts then p.texts[Profile.Label] else ""
  }

  // Without such a file there is no active label.
  lemma NoneIsActive(t: Tree)
    requires WellFormed(t) && CURRENT !in t
    ensures CurrentLabel(t) == ""
  {
    Fixed("");
  }

  lemma SameDirs(t: Tree, conf: string, tag: string, text: string)
    ensures var p := SaveProfile(Write(t, APP, conf).tree, tag, text).tree;
      HasDir(t, CURRENT) ==> HasDir(p, CURRENT)
    ensures var p := SaveProfile(Write(t, APP, conf).tree, tag, text).tree;
      HasDir(p, CURRENT) ==> HasDir(t, CURRENT)
  {
    var s := Write(t, APP, conf).tree;
    WriteFrame(t, APP, conf);
    SaveProfileFrame(s, tag, text);
    Fixed(tag);
    OnlyProfiles(s, tag, text);
  }

  // Saving a profile makes no other directory than the profiles'.
  lemma OnlyProfiles(t: Tree, tag: string, text: string)
    ensures HasDir(SaveProfile(t, tag, text).tree, CURRENT) ==> HasDir(t, CURRENT)
  {
    Fixed(tag);
    var dir := ["profiles"];
    PlainPath(dir);
    assert dir[..|dir| - 1] == [] && Mkdir(t, []) == Outcome(t, true);
    assert CURRENT != dir;
  }

  lemma SameLabel(t: Tree, conf: string)
    requires Write(t, APP, conf).ok
    ensures CurrentLabel(Write(t, APP, conf).tree) == CurrentLabel(t)
    ensures WellFormed(t) ==> WellFormed(Write(t, APP, conf).tree)
  {
    var u := Write(t, APP, conf).tree;
    Fixed("");
    ProfilesSame(t, u, conf);
    LabelOfText(t, u);
    if WellFormed(t) {
      StaysWellFormed(t, u, conf);
    }
  }

  lemma LabelOfText(t: Tree, u: Tree)
    requires IsFile(u, CURRENT) <==> IsFile(t, CURRENT)
    requires IsFile(t, CURRENT) ==> TextOf(u, CURRENT) == TextOf(t, CURRENT)
    ensures CurrentLabel(u) == CurrentLabel(t)
  {
  }

  lemma StaysWellFormed(t: Tree, u: Tree, conf: string)
    requires WellFormed(t) && u == t[APP := File(conf)] && !HasDir(t, APP)
    ensures WellFormed(u)
  {
    forall p | p in u && p != []
      ensures p[..|p| - 1] in u && u[p[..|p| - 1]].Dir?
    {
      ParentIsNotApp(t, p);
    }
    assert Resolve([]) == [];
  }

  lemma ParentIsNotApp(t: Tree, p: Path)
    requires WellFormed(t) && p != [] && (p in t || p == APP) && !HasDir(t, APP)
    ensures p[..|p| - 1] in t && t[p[..|p| - 1]].Dir? && p[..|p| - 1] != APP
  {
    assert APP[..|APP| - 1] == [];
  }

  lemma ProfilesSame(t: Tree, u: Tree, conf: string)
    requires u == t[APP := File(conf)] || u == t
    requires !HasDir(t, APP)
    ensures IsFile(u, CURRENT) <==> IsFile(t, CURRENT)
    ensures IsFile(t, CURRENT) ==> TextOf(u, CURRENT) == TextOf(t, CURRENT)
  {
    Fixed("");
    var dir := ["profiles"];
    PlainPath(dir);
    assert CURRENT[..|CURRENT| - 1] == dir && dir[..|dir| - 1] == [];
    assert |APP| == 1 && |CURRENT| == 2 && APP[0][0] == 'a' && dir[0][0] == 'p';
  }

  lemma SaveProfileKeeps(t: Tree, conf: string, tag: string, text: string)
    requires WellFormed(t) && Holds(t, APP, conf) && SaveProfile(t, tag, text).ok
    ensures var u := SaveProfile(t, tag, text).tree;
      Holds(u, APP, conf) && Holds(u, ProfileFile(tag), text) && IsDir(u, ["profiles"])
  {
    Fixed(tag);
    ProfileStored(t, tag, text);
    SaveProfileFrame(t, tag, text);
    FileStays(t, SaveProfile(t, tag, text).tree, {ProfileFile(tag)}, APP);
    assert |APP| != |ProfileFile(tag)|;
    assert ProfileFile(tag)[..|ProfileFile(tag)| - 1] == ["profiles"];
  }

  lemma ActiveWritten(p: Tree, t: Tree, conf: string, tag: string, text: string)
    requires Holds(p, APP, conf) && Holds(p, ProfileFile(tag), text) && IsDir(p, ["profiles"])
    requires HasDir(p, CURRENT) <==> HasDir(t, CURRENT)
    ensures var u := Write(p, CURRENT, text).tree;
      && Holds(u, APP, conf) && Holds(u, ProfileFile(tag), text)
      && (!HasDir(t, CURRENT) ==> Holds(u, CURRENT, text))
  {
    Fixed(tag);
    WriteFrame(p, CURRENT, text);
    var u := Write(p, CURRENT, text).tree;
    FileStays(p, u, {CURRENT}, APP);
    FileStays(p, u, {CURRENT}, ProfileFile(tag));
    assert CURRENT[..|CURRENT| - 1] == ["profiles"];
    assert |APP| != |CURRENT|;
  }
}
