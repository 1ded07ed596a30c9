/**
 * Profile staging and sync inputs of src/commands/build.rs, run without interruption. What a
 * build that may be killed at any step leaves behind is in module Builds.
 */
module Staging {
  import opened Wrappers
  import opened ProfileTree

  /** `toFile`: following the link, in the tree as it stands when whole, finds a regular file. */
  datatype Item = Plain(text: string) | Symlink(target: seq<Component>, toFile: bool) | SubDir

  /** A staged or in-tree profile directory: what is at each path below it. */
  type Tree = map<Path, Item>

  datatype SyncInput = SyncInput(name: string, value: string)

  /** A `--profile-dir`: its basename, when that is valid text, and what it holds. */
  datatype Source = Source(basename: Option<string>, entries: seq<Entry>) {
    function Name(): string { if basename.Some? then basename.value else "" }
  }

  datatype StageError =
    | UnsafeName | NoMkosiConf | SameBasename | CollidesWithInTree | EscapingSymlink | EscapingInclude
    | CopyFailed

  const MARKER := ".confos-staged-profile"

  const MARKER_ONLY: Tree := map[[MARKER] := Plain("")]

  /** `is_file` on the marker's path, which follows a link. */
  predicate Marked(t: Tree) {
    [MARKER] in t && (t[[MARKER]].Plain? || (t[[MARKER]].Symlink? && t[[MARKER]].toFile))
  }

  predicate SafeName(name: string) {
    && name != ""
    && forall c :: c in name ==> 'a' <= c <= 'z' || 'A' <= c <= 'Z' || '0' <= c <= '9' || c == '-' || c == '_'
  }

  // ---------------------------------------------------------------------------------------------
  // Copying a source tree
  // ---------------------------------------------------------------------------------------------

  function ItemOf(node: Node): Item {
    match node
    case Dir(_) => SubDir
    case File(text) => Plain(text)
    case Link(target, followed) => Symlink(target, followed.ToFile?)
  }

  datatype CopyStep = CopyStep(path: Path, item: Item)

  /** The order in which `copy_tree` creates things. */
  function CopySteps(entries: seq<Entry>, rel: Path): seq<CopyStep>
    decreases entries
  {
    if entries == [] then []
    else
      var name, node := entries[0].name, entries[0].node;
      [CopyStep(rel + [name], ItemOf(node))]
      + (if node.Dir? then CopySteps(node.entries, rel + [name]) else [])
      + CopySteps(entries[1..], rel)
  }

  function CopyInto(t: Tree, steps: seq<CopyStep>): Tree {
    if steps == [] then t
    else
      var last := steps[|steps| - 1];
      CopyInto(t, steps[..|steps| - 1])[last.path := last.item]
  }

  function Copied(d: Source): Tree {
    CopyInto(MARKER_ONLY, CopySteps(d.entries, []))
  }

  /** A directory cannot be made where something else already is. */
  predicate Blocked(t: Tree, step: CopyStep) {
    step.item.SubDir? && step.path in t && !t[step.path].SubDir?
  }

  predicate BlockedAt(d: Source, k: nat)
    requires k < |CopySteps(d.entries, [])|
  {
    Blocked(CopyInto(MARKER_ONLY, CopySteps(d.entries, [])[..k]), CopySteps(d.entries, [])[k])
  }

  /** `copy_tree` into the marked directory stops with an error. */
  ghost predicate CopyFails(d: Source) {
    exists k: nat :: k < |CopySteps(d.entries, [])| && BlockedAt(d, k)
  }

  /** No entry at the root of the source is a symlink named like the marker. */
  predicate NoMarkerLink(d: Source) {
    forall i :: 0 <= i < |d.entries| && d.entries[i].name == MARKER ==> !d.entries[i].node.Link?
  }

  /** What a source may hold under the marker's name and still leave its copy marked. */
  predicate StaysMarker(node: Node) {
    node.File? || (node.Link? && node.followed.ToFile?)
  }

  ghost predicate StepIsSite(step: CopyStep, s: Site) {
    step.path == s.parent + [s.name] && step.item == ItemOf(s.node)
  }

  lemma {:induction false} StepsAreSites(entries: seq<Entry>, rel: Path, step: CopyStep) returns (s: Site)
    requires step in CopySteps(entries, rel)
    ensures s in SitesIn(entries, rel) && StepIsSite(step, s)
    decreases entries
  {
    var name, node := entries[0].name, entries[0].node;
    if step in CopySteps(entries[1..], rel) {
      s := StepsAreSites(entries[1..], rel, step);
    } else if step == CopyStep(rel + [name], ItemOf(node)) {
      s := Site(rel, name, node);
    } else {
      s := StepsAreSites(node.entries, rel + [name], step);
    }
  }

  lemma {:induction false} SitesAreSteps(entries: seq<Entry>, rel: Path, s: Site)
    requires s in SitesIn(entries, rel)
    ensures CopyStep(s.parent + [s.name], ItemOf(s.node)) in CopySteps(entries, rel)
    decreases entries
  {
    var name, node := entries[0].name, entries[0].node;
    if s in SitesIn(entries[1..], rel) {
      SitesAreSteps(entries[1..], rel, s);
    } else if s != Site(rel, name, node) {
      SitesAreSteps(node.entries, rel + [name], s);
    }
  }

  lemma {:induction false} CopyIntoAt(t: Tree, steps: seq<CopyStep>, p: Path)
    ensures p in CopyInto(t, steps) ==>
              || (p in t && CopyInto(t, steps)[p] == t[p])
              || CopyStep(p, CopyInto(t, steps)[p]) in steps
    ensures (exists step :: step in steps && step.path == p) || p in t ==> p in CopyInto(t, steps)
    ensures (forall step :: step in steps ==> step.path != p) && p in t ==> CopyInto(t, steps)[p] == t[p]
  {
    if steps != [] {
      var n := |steps| - 1;
      assert steps == steps[..n] + [steps[n]];
      CopyIntoAt(t, steps[..n], p);
    }
  }

  lemma {:induction false} StepNames(entries: seq<Entry>, rel: Path, step: CopyStep)
    requires step in CopySteps(entries, rel)
    ensures |step.path| > |rel| && step.path[..|rel|] == rel
    ensures |step.path| == |rel| + 1 ==>
              exists e :: e in entries && e.name == step.path[|rel|] && ItemOf(e.node) == step.item
    decreases entries
  {
    var name, node := entries[0].name, entries[0].node;
    if step in CopySteps(entries[1..], rel) {
      StepNames(entries[1..], rel, step);
    } else if step == CopyStep(rel + [name], ItemOf(node)) {
      assert entries[0] in entries;
    } else {
      StepNames(node.entries, rel + [name], step);
      assert step.path[..|rel|] == step.path[..|rel| + 1][..|rel|] == rel;
    }
  }

  /** What a source puts at the marker's path comes from its own root. */
  lemma MarkerSteps(d: Source, step: CopyStep)
    requires step in CopySteps(d.entries, []) && step.path == [MARKER]
    ensures exists e :: e in d.entries && e.name == MARKER && ItemOf(e.node) == step.item
  {
    StepNames(d.entries, [], step);
  }

  /** As long as only plain files have been written over it, the marker is there. */
  lemma CopiesStayMarked(d: Source, k: nat)
    requires k <= |CopySteps(d.entries, [])|
    requires forall j :: 0 <= j < k && CopySteps(d.entries, [])[j].path == [MARKER] ==>
               CopySteps(d.entries, [])[j].item.Plain?
    ensures var t := CopyInto(MARKER_ONLY, CopySteps(d.entries, [])[..k]);
            [MARKER] in t && t[[MARKER]].Plain?
  {
    hide CopySteps, CopyInto;
    CopyIntoAt(MARKER_ONLY, CopySteps(d.entries, [])[..k], [MARKER]);
  }

  /**
   * A finished copy holds the entries of the source, each where it was, and the marker unless the
   * source has something of its own there; nothing else.
   */
  lemma CopyIsExact(d: Source, p: Path, item: Item)
    requires OneSitePerPath(SitesIn(d.entries, []))
    ensures p in Copied(d) && Copied(d)[p] == item <==>
            || (exists s :: s in SitesIn(d.entries, []) && StepIsSite(CopyStep(p, item), s))
            || (p == [MARKER] && item == Plain("")
                && forall e :: e in d.entries ==> e.name != MARKER)
  {
    hide CopyInto, CopySteps, SitesIn;
    var steps, sites := CopySteps(d.entries, []), SitesIn(d.entries, []);
    if step :| step in steps && step.path == p {
      LastWriteStays(MARKER_ONLY, steps, step);
      var now := CopyStep(p, Copied(d)[p]);
      var t := StepsAreSites(d.entries, [], now);
      if p == [MARKER] {
        MarkerSteps(d, now);
      }
      if s :| s in sites && StepIsSite(CopyStep(p, item), s) {
        SitesAreSteps(d.entries, [], s);
        SameStep(d, now, CopyStep(p, item));
      }
    } else {
      CopyIntoAt(MARKER_ONLY, steps, p);
      forall s | s in sites
        ensures !StepIsSite(CopyStep(p, item), s)
      {
        SitesAreSteps(d.entries, [], s);
      }
      forall e | e in d.entries && p == [MARKER]
        ensures e.name != MARKER
      {
        RootSite(d.entries, [], e);
        SitesAreSteps(d.entries, [], Site([], e.name, e.node));
      }
    }
  }

  lemma {:induction false} RootSite(entries: seq<Entry>, rel: Path, e: Entry)
    requires e in entries
    ensures Site(rel, e.name, e.node) in SitesIn(entries, rel)
    decreases entries
  {
    if e != entries[0] {
      RootSite(entries[1..], rel, e);
    }
  }

  lemma {:induction false} LastWriteStays(t: Tree, steps: seq<CopyStep>, step: CopyStep)
    requires step in steps
    ensures step.path in CopyInto(t, steps) && CopyStep(step.path, CopyInto(t, steps)[step.path]) in steps
  {
    var n := |steps| - 1;
    assert steps == steps[..n] + [steps[n]];
    if steps[n].path != step.path {
      LastWriteStays(t, steps[..n], step);
    }
  }

  /** Between unique names, the only thing `copy_tree` can trip over is a directory in the marker's place. */
  lemma CopyFailsExactly(d: Source)
    requires OneSitePerPath(SitesIn(d.entries, []))
    ensures CopyFails(d) <==> exists e :: e in d.entries && e.name == MARKER && e.node.Dir?
  {
    hide CopySteps, CopyInto, SitesIn;
    var steps := CopySteps(d.entries, []);
    if CopyFails(d) {
      var k: nat :| k < |steps| && BlockedAt(d, k);
      var p, now := steps[k].path, CopyInto(MARKER_ONLY, steps[..k]);
      CopyIntoAt(MARKER_ONLY, steps[..k], p);
      if p != [MARKER] {
        SameStep(d, steps[k], CopyStep(p, now[p]));
        assert false;
      }
      MarkerSteps(d, steps[k]);
    }
    if e :| e in d.entries && e.name == MARKER && e.node.Dir? {
      RootSite(d.entries, [], e);
      SitesAreSteps(d.entries, [], Site([], MARKER, e.node));
      assert [] + [MARKER] == [MARKER];
      var k := FirstAt(steps, CopyStep([MARKER], SubDir));
      SameStep(d, steps[k], CopyStep([MARKER], SubDir));
      CopyIntoAt(MARKER_ONLY, steps[..k], [MARKER]);
      assert BlockedAt(d, k);
    }
  }

  lemma FirstAt(steps: seq<CopyStep>, step: CopyStep) returns (k: nat)
    requires step in steps
    ensures k < |steps| && steps[k].path == step.path
    ensures forall s :: s in steps[..k] ==> s.path != step.path
  {
    k := 0;
    while steps[k].path != step.path
      invariant k < |steps| && step in steps[k..]
      invariant forall s :: s in steps[..k] ==> s.path != step.path
      decreases |steps| - k
    {
      assert steps[k..] == [steps[k]] + steps[k + 1..];
      assert steps[..k + 1] == steps[..k] + [steps[k]];
      k := k + 1;
    }
  }

  lemma SameStep(d: Source, x: CopyStep, y: CopyStep)
    requires OneSitePerPath(SitesIn(d.entries, []))
    requires x in CopySteps(d.entries, []) && y in CopySteps(d.entries, []) && x.path == y.path
    ensures x == y
  {
    hide CopySteps, SitesIn;
    var s := StepsAreSites(d.entries, [], x);
    var t := StepsAreSites(d.entries, [], y);
  }

  /**
   * Exactly when staging a source ends in a marked copy: nothing at its root is named like the
   * marker but regular files and links that reach one.
   */
  lemma CopyIsMarkedExactly(d: Source)
    requires OneSitePerPath(SitesIn(d.entries, []))
    ensures !CopyFails(d) && Marked(Copied(d)) <==>
            forall e :: e in d.entries && e.name == MARKER ==> StaysMarker(e.node)
  {
    hide Copied, SitesIn, CopyFails;
    CopyFailsExactly(d);
    if e :| e in d.entries && e.name == MARKER {
      RootSite(d.entries, [], e);
      assert StepIsSite(CopyStep([MARKER], ItemOf(e.node)), Site([], MARKER, e.node));
      CopyIsExact(d, [MARKER], ItemOf(e.node));
      forall f | f in d.entries && f.name == MARKER
        ensures f.node == e.node
      {
        RootSite(d.entries, [], f);
        assert [] + [MARKER] == [MARKER];
        assert Site([], MARKER, f.node) == Site([], MARKER, e.node);
      }
    } else {
      CopyIsExact(d, [MARKER], Plain(""));
    }
  }

  // ---------------------------------------------------------------------------------------------
  // What each stage leaves
  // ---------------------------------------------------------------------------------------------

  type Profiles = map<string, Tree>

  function Swept(profiles: Profiles): Profiles {
    map n | n in profiles && !Marked(profiles[n]) :: profiles[n]
  }

  function Written(inputs: seq<SyncInput>): map<string, string> {
    if inputs == [] then map[]
    else
      var last := inputs[|inputs| - 1];
      Written(inputs[..|inputs| - 1])[last.name := last.value + "\n"]
  }

  function SyncFiles(inputs: seq<SyncInput>): Option<map<string, string>> {
    if inputs == [] then None else Some(Written(inputs))
  }

  function StagedOver(profiles: Profiles, dirs: seq<Source>): Profiles {
    if dirs == [] then profiles
    else
      var last := dirs[|dirs| - 1];
      StagedOver(profiles, dirs[..|dirs| - 1])[last.Name() := Copied(last)]
  }

  function WithNames(names: seq<string>, dirs: seq<Source>): seq<string> {
    if dirs == [] then names
    else
      var before, name := WithNames(names, dirs[..|dirs| - 1]), dirs[|dirs| - 1].Name();
      if name in before then before else before + [name]
  }

  predicate HasConfig(entries: seq<Entry>) {
    exists i :: 0 <= i < |entries| && entries[i].name == "mkosi.conf" && TextOf(entries[i].node).Some?
  }

  /** The first complaint about the `i`th directory, in the order the checks run. */
  function Complaint(profiles: Profiles, dirs: seq<Source>, i: nat): Option<StageError>
    requires i < |dirs|
  {
    var d := dirs[i];
    if !SafeName(d.Name()) then Some(UnsafeName)
    else if !HasConfig(d.entries) then Some(NoMkosiConf)
    else if exists j :: 0 <= j < i && dirs[j].Name() == d.Name() then Some(SameBasename)
    else if d.Name() in profiles then Some(CollidesWithInTree)
    else if !SymlinksOk(d.entries, [], true, false) then Some(EscapingSymlink)
    else if !IncludesOk(d.entries, []) then Some(EscapingInclude)
    else None
  }

  function FirstComplaint(profiles: Profiles, dirs: seq<Source>, i: nat): Option<StageError>
    requires i <= |dirs|
    decreases |dirs| - i
  {
    if i == |dirs| then None
    else if Complaint(profiles, dirs, i).Some? then Complaint(profiles, dirs, i)
    else FirstComplaint(profiles, dirs, i + 1)
  }

  /** Every directory is sound on its own, and no two, nor any and a profile, share a name. */
  ghost predicate Stageable(profiles: Profiles, dirs: seq<Source>) {
    && (forall i :: 0 <= i < |dirs| ==>
          && SafeName(dirs[i].Name()) && HasConfig(dirs[i].entries) && dirs[i].Name() !in profiles
          && SymlinksOk(dirs[i].entries, [], true, false) && IncludesOk(dirs[i].entries, []))
    && DistinctNames(dirs)
  }

  ghost predicate DistinctNames(dirs: seq<Source>) {
    forall i, j :: 0 <= j < i < |dirs| ==> dirs[i].Name() != dirs[j].Name()
  }

  lemma {:induction false} ComplaintsAreExact(profiles: Profiles, dirs: seq<Source>, i: nat)
    requires i <= |dirs|
    ensures FirstComplaint(profiles, dirs, i).None? <==>
            forall k :: i <= k < |dirs| ==> Complaint(profiles, dirs, k).None?
    decreases |dirs| - i
  {
    if i < |dirs| {
      ComplaintsAreExact(profiles, dirs, i + 1);
    }
  }

  /** Validation accepts a list of directories if and only if they can be staged side by side. */
  lemma ValidationIsExact(profiles: Profiles, dirs: seq<Source>)
    ensures FirstComplaint(profiles, dirs, 0).None? <==> Stageable(profiles, dirs)
  {
    hide SymlinksOk, IncludesOk, SafeName, HasConfig;
    ComplaintsAreExact(profiles, dirs, 0);
    if FirstComplaint(profiles, dirs, 0).None? {
      forall i | 0 <= i < |dirs|
        ensures SafeName(dirs[i].Name()) && HasConfig(dirs[i].entries) && dirs[i].Name() !in profiles
        ensures SymlinksOk(dirs[i].entries, [], true, false) && IncludesOk(dirs[i].entries, [])
        ensures forall j :: 0 <= j < i ==> dirs[i].Name() != dirs[j].Name()
      {
        assert Complaint(profiles, dirs, i).None?;
      }
    }
  }

  lemma CopyIntoNone(t: Tree, steps: seq<CopyStep>)
    ensures CopyInto(t, steps[..0]) == t
  {
  }

  lemma CopyIntoNext(t: Tree, steps: seq<CopyStep>, k: nat)
    requires k < |steps|
    ensures CopyInto(t, steps[..k + 1]) == CopyInto(t, steps[..k])[steps[k].path := steps[k].item]
  {
    assert steps[..k + 1][..k] == steps[..k];
  }

  /** The last value given for a name is the one staged. */
  lemma {:induction false} LastInputWins(inputs: seq<SyncInput>, i: nat)
    requires i < |inputs| && forall k :: i < k < |inputs| ==> inputs[k].name != inputs[i].name
    ensures inputs[i].name in Written(inputs) && Written(inputs)[inputs[i].name] == inputs[i].value + "\n"
  {
    if i < |inputs| - 1 {
      LastInputWins(inputs[..|inputs| - 1], i);
    }
  }

  lemma {:induction false} OnlyInputsAreWritten(inputs: seq<SyncInput>, name: string)
    ensures name in Written(inputs) <==> exists i :: 0 <= i < |inputs| && inputs[i].name == name
  {
    if inputs != [] {
      var n := |inputs| - 1;
      OnlyInputsAreWritten(inputs[..n], name);
      if i :| 0 <= i < n && inputs[..n][i].name == name {
        assert inputs[i].name == name;
      }
      if i :| 0 <= i < |inputs| && inputs[i].name == name && i < n {
        assert inputs[..n][i].name == name;
      }
    }
  }

  lemma {:induction false} StagedIsDisjoint(profiles: Profiles, dirs: seq<Source>)
    requires DistinctNames(dirs)
    requires forall i :: 0 <= i < |dirs| ==> dirs[i].Name() !in profiles
    ensures forall n :: n in profiles ==>
              n in StagedOver(profiles, dirs) && StagedOver(profiles, dirs)[n] == profiles[n]
    ensures forall i :: 0 <= i < |dirs| ==>
              && dirs[i].Name() in StagedOver(profiles, dirs)
              && StagedOver(profiles, dirs)[dirs[i].Name()] == Copied(dirs[i])
    ensures forall n :: n in StagedOver(profiles, dirs) ==>
              n in profiles || exists i :: 0 <= i < |dirs| && dirs[i].Name() == n
  {
    hide Copied;
    if dirs != [] {
      StagedIsDisjoint(profiles, dirs[..|dirs| - 1]);
    }
  }

  /** Sweeping takes back exactly what staging added: no profile of the checkout is lost or changed. */
  lemma SweepUndoesStaging(profiles: Profiles, dirs: seq<Source>)
    requires Stageable(profiles, dirs)
    requires forall i :: 0 <= i < |dirs| ==> Marked(Copied(dirs[i]))
    ensures Swept(StagedOver(profiles, dirs)) == Swept(profiles)
  {
    hide SymlinksOk, IncludesOk, SafeName, HasConfig, Copied, Marked, StagedOver;
    StagedIsDisjoint(profiles, dirs);
  }

  function NameSet(dirs: seq<Source>): set<string> {
    set i | 0 <= i < |dirs| :: dirs[i].Name()
  }

  lemma NameSetNext(dirs: seq<Source>, i: nat)
    requires i < |dirs|
    ensures NameSet(dirs[..i + 1]) == NameSet(dirs[..i]) + {dirs[i].Name()}
  {
    var next := dirs[..i + 1];
    forall n
      ensures n in NameSet(next) <==> n in NameSet(dirs[..i]) || n == dirs[i].Name()
    {
      if j :| 0 <= j < |next| && next[j].Name() == n {
        assert j < i ==> dirs[..i][j] == next[j];
      }
      if j :| 0 <= j < i && dirs[..i][j].Name() == n {
        assert next[j].Name() == n;
      }
      assert next[i].Name() == dirs[i].Name();
    }
  }

  /** Also when the last copy was cut short. */
  lemma GuardsUndoPartialStaging(base: Profiles, dirs: seq<Source>, i: nat, cut: Profiles)
    requires Stageable(base, dirs) && i < |dirs|
    requires cut - {dirs[i].Name()} == StagedOver(base, dirs[..i]) - {dirs[i].Name()}
    ensures cut - NameSet(dirs[..i + 1]) == base
  {
    hide Copied, StagedOver, SymlinksOk, IncludesOk, SafeName, HasConfig;
    var name, staged := dirs[i].Name(), StagedOver(base, dirs[..i]);
    NameSetNext(dirs, i);
    GuardsUndoStaging(base, dirs[..i]);
    assert cut - NameSet(dirs[..i + 1]) == (cut - {name}) - NameSet(dirs[..i]);
    assert (staged - {name}) - NameSet(dirs[..i]) == (staged - NameSet(dirs[..i])) - {name};
  }

  /** Dropping the guards of staged directories leaves what was there before. */
  lemma {:induction false} GuardsUndoStaging(base: Profiles, dirs: seq<Source>)
    requires DistinctNames(dirs)
    requires forall i :: 0 <= i < |dirs| ==> dirs[i].Name() !in base
    ensures StagedOver(base, dirs) - NameSet(dirs) == base
  {
    hide Copied, StagedOver;
    StagedIsDisjoint(base, dirs);
  }

  /** A profile directory with a configuration file and a link in the marker's place. */
  function LinkedMarker(target: string, followed: Followed): Source {
    Source(Some("p"), [Entry("mkosi.conf", File("")), Entry(MARKER, Link([Normal(target)], followed))])
  }

  lemma LinkedMarkerSites(target: string, followed: Followed)
    ensures var d := LinkedMarker(target, followed);
            && SitesIn(d.entries, []) ==
               {Site([], "mkosi.conf", d.entries[0].node), Site([], MARKER, d.entries[1].node)}
            && OneSitePerPath(SitesIn(d.entries, []))
  {
    var entries := LinkedMarker(target, followed).entries;
    assert entries[1..] == [entries[1]] && entries[1..][1..] == [];
    assert SitesIn(entries[1..], []) == {Site([], MARKER, entries[1].node)};
    assert ([] + ["mkosi.conf"])[0][0] == 'm' && ([] + [MARKER])[0][0] == '.';
  }

  lemma LinkedMarkerIsSound(target: string, followed: Followed)
    ensures Stageable(map[], [LinkedMarker(target, followed)])
  {
    var entries := LinkedMarker(target, followed).entries;
    assert entries[1..] == [entries[1]] && entries[1..][1..] == [];
    assert HasConfig(entries) by {
      assert entries[0].name == "mkosi.conf" && TextOf(entries[0].node).Some?;
    }
    assert SymlinksOk(entries, [], true, false) by {
      assert !Escapes(0, [Normal(target)]);
    }
    assert IncludesOk(entries, []) by {
      assert entries[0].node == File("");
    }
  }

  /** Both validators accept it, the copy succeeds, and is marked if and only if the link reaches a file. */
  lemma LinkedMarkerIsStaged(target: string, followed: Followed)
    ensures var d := LinkedMarker(target, followed);
            Stageable(map[], [d]) && !CopyFails(d) && (Marked(Copied(d)) <==> followed.ToFile?)
  {
    hide CopyFails, Copied, Marked, SitesIn, Stageable;
    var d := LinkedMarker(target, followed);
    LinkedMarkerIsSound(target, followed);
    LinkedMarkerSites(target, followed);
    CopyIsMarkedExactly(d);
    CopyFailsExactly(d);
    assert d.entries[1] in d.entries && d.entries[0].name[0] != MARKER[0];
  }

  /** A link that leads nowhere leaves even the finished copy unmarked. */
  lemma MarkerLinkUnmarks()
    ensures var d := LinkedMarker("gone", Nothing);
            Stageable(map[], [d]) && !CopyFails(d) && !Marked(Copied(d))
  {
    LinkedMarkerIsStaged("gone", Nothing);
  }

  // ---------------------------------------------------------------------------------------------
  // The stages themselves
  // ---------------------------------------------------------------------------------------------

  /** The part of a checkout that builds stage into: `mkosi.profiles/` and the sync-input directory. */
  class Checkout {
    var profiles: Profiles
    var sync: Option<map<string, string>>

    constructor (profiles: Profiles, sync: Option<map<string, string>>)
      ensures this.profiles == profiles && this.sync == sync
    {
      this.profiles := profiles;
      this.sync := sync;
    }

    method SweepStale()
      modifies this`profiles
      ensures profiles == Swept(old(profiles))
    {
      var todo := profiles.Keys;
      while todo != {}
        invariant todo <= profiles.Keys <= old(profiles).Keys
        invariant forall n :: n in profiles ==> profiles[n] == old(profiles)[n]
        invariant forall n :: n in old(profiles) && n !in todo ==> (n in profiles <==> !Marked(old(profiles)[n]))
      {
        var n :| n in todo;
        if Marked(profiles[n]) {
          profiles := profiles - {n};
        }
        todo := todo - {n};
      }
    }

    method WriteSyncInputs(inputs: seq<SyncInput>)
      modifies this`sync
      ensures sync == SyncFiles(inputs)
    {
      if sync.Some? {
        sync := None;
      }
      if |inputs| == 0 {
        return;
      }
      sync := Some(map[]);
      for k := 0 to |inputs|
        invariant sync == Some(Written(inputs[..k]))
      {
        assert inputs[..k + 1][..k] == inputs[..k];
        sync := Some(sync.value[inputs[k].name := inputs[k].value + "\n"]);
      }
      assert inputs[..|inputs|] == inputs;
    }

    /** The validation loop; nothing is staged before it is over. */
    method Validate(dirs: seq<Source>) returns (complaint: Option<StageError>)
      ensures complaint == FirstComplaint(profiles, dirs, 0)
      ensures complaint.None? <==> Stageable(profiles, dirs)
    {
      ValidationIsExact(profiles, dirs);
      for i := 0 to |dirs|
        invariant FirstComplaint(profiles, dirs, 0) == FirstComplaint(profiles, dirs, i)
      {
        complaint := Complaint(profiles, dirs, i);
        if complaint.Some? {
          return;
        }
      }
      return None;
    }

    /** `names` are the profiles asked for by name; the answer has the staged ones as well. */
    method StageProfileDirs(dirs: seq<Source>, names: seq<string>) returns (r: Result<seq<string>, StageError>)
      modifies this`profiles
      ensures r.Ok? <==> Stageable(old(profiles), dirs) && forall i :: 0 <= i < |dirs| ==> !CopyFails(dirs[i])
      ensures r.Ok? ==> profiles == StagedOver(old(profiles), dirs) && r.value == WithNames(names, dirs)
      ensures r.Err? ==> profiles == old(profiles)
      ensures r.Err? ==> Some(r.error) == if Stageable(profiles, dirs) then Some(CopyFailed)
                                          else FirstComplaint(profiles, dirs, 0)
    {
      hide CopyFails, Copied, Stageable, FirstComplaint;
      var complaint := Validate(dirs);
      if complaint.Some? {
        return Err(complaint.value);
      }
      var all := names;
      for i := 0 to |dirs|
        invariant profiles == StagedOver(old(profiles), dirs[..i]) && all == WithNames(names, dirs[..i])
        invariant forall j :: 0 <= j < i ==> !CopyFails(dirs[j])
      {
        assert dirs[..i + 1][..i] == dirs[..i];
        var ok := CopyOne(dirs[i]);
        if !ok {
          GuardsUndoPartialStaging(old(profiles), dirs, i, profiles);
          DropGuards(dirs[..i + 1]);
          return Err(CopyFailed);
        }
        if dirs[i].Name() !in all {
          all := all + [dirs[i].Name()];
        }
      }
      assert dirs[..|dirs|] == dirs;
      return Ok(all);
    }

    /** The guards of `dirs`, dropped one by one; a guard removes its directory if it is there. */
    method DropGuards(dirs: seq<Source>)
      modifies this`profiles
      ensures profiles == old(profiles) - NameSet(dirs)
    {
      for i := 0 to |dirs|
        invariant profiles == old(profiles) - NameSet(dirs[..i])
      {
        NameSetNext(dirs, i);
        profiles := profiles - {dirs[i].Name()};
      }
      assert dirs[..|dirs|] == dirs;
    }

    /** Marker before content; false when a step of the copy fails. */
    method CopyOne(d: Source) returns (ok: bool)
      modifies this`profiles
      ensures ok <==> !CopyFails(d)
      ensures ok ==> profiles == old(profiles)[d.Name() := Copied(d)]
      ensures !ok ==> profiles - {d.Name()} == old(profiles) - {d.Name()}
    {
      hide CopySteps, CopyInto;
      var target := d.Name();
      profiles := profiles[target := map[]];
      profiles := profiles[target := profiles[target][[MARKER] := Plain("")]];
      var steps := CopySteps(d.entries, []);
      CopyIntoNone(MARKER_ONLY, steps);
      for k := 0 to |steps|
        invariant profiles == old(profiles)[target := CopyInto(MARKER_ONLY, steps[..k])]
        invariant forall j: nat :: j < k ==> !BlockedAt(d, j)
      {
        if Blocked(profiles[target], steps[k]) {
          assert BlockedAt(d, k);
          return false;
        }
        CopyIntoNext(MARKER_ONLY, steps, k);
        profiles := profiles[target := profiles[target][steps[k].path := steps[k].item]];
      }
      assert steps[..|steps|] == steps;
      return true;
    }
  }
}
