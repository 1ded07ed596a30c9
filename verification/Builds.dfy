/**
 * Builds sharing one checkout, as src/commands/build.rs runs them: take the lock, sweep, write the
 * sync inputs, validate, stage, run mkosi, drop the guards. Any build may fail or be killed
 * between any two changes to the file system. Removing a directory is one change; a file written
 * may first appear with other contents.
 */
module Builds {
  import opened Wrappers
  import opened ProfileTree
  import opened Staging
  import Text

  datatype Args = Args(dirs: seq<Source>, inputs: seq<SyncInput>)

  datatype Fs = Fs(profiles: Profiles, sync: Option<map<string, string>>)

  /**
   * Where a build is. `base` is what `mkosi.profiles/` held when staging began. `Unwinding` has the
   * staged directories still to be removed, and whether `mkosi.local/` is.
   */
  datatype Pc =
    | Idle
    | Sweeping(todo: set<string>)
    | Clearing
    | Writing(k: nat)
    | Validating
    | Creating(base: Profiles, i: nat)
    | Marking(base: Profiles, i: nat)
    | Copying(base: Profiles, i: nat, k: nat)
    | Running(base: Profiles)
    | Unwinding(names: seq<string>, local: bool)
    | Done

  datatype Build = Build(args: Args, pc: Pc)

  datatype Sys = Sys(fs: Fs, lock: Option<nat>, builds: map<nat, Build>)

  predicate Active(pc: Pc) {
    !pc.Idle? && !pc.Done?
  }

  function Names(dirs: seq<Source>): (names: seq<string>)
    ensures |names| == |dirs| && forall i :: 0 <= i < |dirs| ==> names[i] == dirs[i].Name()
  {
    seq(|dirs|, i requires 0 <= i < |dirs| => dirs[i].Name())
  }

  function StepsOf(d: Source): seq<CopyStep> {
    CopySteps(d.entries, [])
  }

  /** The maps agree everywhere but at `key`. */
  predicate SameBut<K(==), V(==)>(m: map<K, V>, key: K, m': map<K, V>) {
    m - {key} == m' - {key}
  }

  lemma SameButThenPut<K, V>(m: map<K, V>, key: K, m': map<K, V>, v: V)
    requires SameBut(m, key, m')
    ensures m[key := v] == m'[key := v]
    ensures forall k :: k in m && k != key ==> k in m' && m'[k] == m[k]
  {
    forall k | k != key
      ensures k in m <==> k in m'
      ensures k in m ==> m[k] == m'[k]
    {
      assert k in m <==> k in m - {key};
      assert k in m' <==> k in m' - {key};
      if k in m {
        assert (m - {key})[k] == (m' - {key})[k];
      }
    }
  }

  // ---------------------------------------------------------------------------------------------
  // Steps
  // ---------------------------------------------------------------------------------------------

  ghost predicate SweepActs(pc: Pc, fs: Fs, pc': Pc, fs': Fs)
    requires pc.Sweeping?
  {
    if pc.todo == {} then pc' == Clearing && fs' == fs
    else
      exists n :: n in pc.todo && pc' == Sweeping(pc.todo - {n})
        && fs' == if n in fs.profiles && Marked(fs.profiles[n]) then fs.(profiles := fs.profiles - {n}) else fs
  }

  ghost predicate SyncActs(a: Args, pc: Pc, fs: Fs, pc': Pc, fs': Fs)
    requires pc.Clearing? || pc.Writing?
  {
    if pc.Clearing? then
      if fs.sync.Some? then pc' == Clearing && fs' == fs.(sync := None)
      else if a.inputs == [] then pc' == Validating && fs' == fs
      else pc' == Writing(0) && fs' == fs.(sync := Some(map[]))
    else if pc.k < |a.inputs| then
      var input := a.inputs[pc.k];
      && fs.sync.Some?
      && (|| (pc' == Writing(pc.k + 1) && fs' == fs.(sync := Some(fs.sync.value[input.name := input.value + "\n"])))
          || (pc' == pc && fs'.sync.Some? && SameBut(fs.sync.value, input.name, fs'.sync.value)
              && fs' == fs.(sync := fs'.sync)))
    else
      pc' == Validating && fs' == fs
  }

  ghost predicate StageActs(a: Args, pc: Pc, fs: Fs, pc': Pc, fs': Fs)
    requires pc.Validating? || pc.Creating? || pc.Marking? || pc.Copying?
  {
    match pc
    case Validating =>
      pc' == Creating(fs.profiles, 0) && fs' == fs && Stageable(fs.profiles, a.dirs)
    case Creating(base, i) =>
      if i < |a.dirs| then
        pc' == Marking(base, i) && fs' == fs.(profiles := fs.profiles[a.dirs[i].Name() := map[]])
      else
        pc' == Running(base) && fs' == fs
    case Marking(base, i) =>
      && i < |a.dirs| && a.dirs[i].Name() in fs.profiles
      && var name := a.dirs[i].Name();
         && pc' == Copying(base, i, 0)
         && fs' == fs.(profiles := fs.profiles[name := fs.profiles[name][[MARKER] := Plain("")]])
    case Copying(base, i, k) =>
      && i < |a.dirs| && a.dirs[i].Name() in fs.profiles
      && var name, steps := a.dirs[i].Name(), StepsOf(a.dirs[i]);
         if k < |steps| then
           && !Blocked(fs.profiles[name], steps[k])
           && name in fs'.profiles && fs' == fs.(profiles := fs.profiles[name := fs'.profiles[name]])
           && (|| (pc' == Copying(base, i, k + 1)
                   && fs'.profiles[name] == fs.profiles[name][steps[k].path := steps[k].item])
               || (pc' == pc && Torn(fs.profiles[name], steps[k], fs'.profiles[name])))
         else
           pc' == Creating(base, i + 1) && fs' == fs
  }

  /**
   * A step of the copy under way: a file that is being written is a file already, whatever it
   * holds; what a symlink is to replace is removed first; a directory is there or not.
   */
  predicate Torn(before: Tree, step: CopyStep, now: Tree) {
    match step.item
    case Plain(_) => SameBut(before, step.path, now) && step.path in now && now[step.path].Plain?
    case Symlink(_, _) => step.path in before && now == before - {step.path}
    case SubDir => false
  }

  /**
   * The profile guards drop in the order in which they were made, then the one of `mkosi.local/`,
   * then the lock. A removal that fails is ignored.
   */
  ghost predicate UnwindActs(pc: Pc, fs: Fs, pc': Pc, fs': Fs)
    requires pc.Unwinding?
  {
    if pc.names != [] then
      && pc' == Unwinding(pc.names[1..], pc.local)
      && (fs' == fs || fs' == fs.(profiles := fs.profiles - {pc.names[0]}))
    else if pc.local then
      pc' == Unwinding([], false) && (fs' == fs || fs' == fs.(sync := None))
    else
      pc' == Done && fs' == fs
  }

  /** The guards a build holds at each point. */
  function GuardedNames(a: Args, pc: Pc): seq<string> {
    match pc
    case Creating(_, i) => if i <= |a.dirs| then Names(a.dirs[..i]) else []
    case Marking(_, i) => if i < |a.dirs| then Names(a.dirs[..i + 1]) else []
    case Copying(_, i, _) => if i < |a.dirs| then Names(a.dirs[..i + 1]) else []
    case Running(_) => Names(a.dirs)
    case _ => []
  }

  predicate LocalGuarded(pc: Pc) {
    pc.Validating? || pc.Creating? || pc.Marking? || pc.Copying? || pc.Running?
  }

  ghost predicate Acts(a: Args, pc: Pc, fs: Fs, pc': Pc, fs': Fs) {
    match pc
    case Sweeping(_) => SweepActs(pc, fs, pc', fs')
    case Clearing => SyncActs(a, pc, fs, pc', fs')
    case Writing(_) => SyncActs(a, pc, fs, pc', fs')
    case Validating => StageActs(a, pc, fs, pc', fs')
    case Creating(_, _) => StageActs(a, pc, fs, pc', fs')
    case Marking(_, _) => StageActs(a, pc, fs, pc', fs')
    case Copying(_, _, _) => StageActs(a, pc, fs, pc', fs')
    case Unwinding(_, _) => UnwindActs(pc, fs, pc', fs')
    case _ => false
  }

  /** An error at any point, and the end of the run, drop the guards held then. */
  predicate Returns(a: Args, pc: Pc, fs: Fs, pc': Pc, fs': Fs) {
    && Active(pc) && !pc.Unwinding?
    && pc' == Unwinding(GuardedNames(a, pc), LocalGuarded(pc)) && fs' == fs
  }

  ghost predicate Starts(s: Sys, p: nat, s': Sys) {
    p !in s.builds && exists a :: s' == s.(builds := s.builds[p := Build(a, Idle)])
  }

  /** No source has a symlink named like the marker at its root. */
  ghost predicate ArgsOk(a: Args) {
    forall i :: 0 <= i < |a.dirs| ==> NoMarkerLink(a.dirs[i])
  }

  ghost predicate AllArgsOk(s: Sys) {
    forall p :: p in s.builds ==> ArgsOk(s.builds[p].args)
  }

  ghost predicate Locks(s: Sys, p: nat, s': Sys) {
    && p in s.builds && s.builds[p].pc.Idle?
    && s' == if s.lock.None?
             then Sys(s.fs, Some(p), s.builds[p := s.builds[p].(pc := Sweeping(s.fs.profiles.Keys))])
             else s.(builds := s.builds[p := s.builds[p].(pc := Done)])
  }

  ghost predicate Moves(s: Sys, p: nat, s': Sys) {
    && p in s.builds && p in s'.builds
    && var b, b' := s.builds[p], s'.builds[p];
       && (Acts(b.args, b.pc, s.fs, b'.pc, s'.fs) || Returns(b.args, b.pc, s.fs, b'.pc, s'.fs))
       && s' == Sys(s'.fs, if b'.pc.Done? then None else s.lock, s.builds[p := b.(pc := b'.pc)])
  }

  /** A killed process drops its lock and nothing else. */
  ghost predicate Dies(s: Sys, p: nat, s': Sys) {
    && p in s.builds
    && s' == Sys(s.fs, if s.lock == Some(p) then None else s.lock, s.builds[p := s.builds[p].(pc := Done)])
  }

  ghost predicate Steps(s: Sys, p: nat, s': Sys) {
    Starts(s, p, s') || Locks(s, p, s') || Moves(s, p, s') || Dies(s, p, s')
  }

  ghost predicate Next(s: Sys, s': Sys) {
    exists p :: Steps(s, p, s')
  }

  ghost predicate Init(tree: Profiles, s: Sys) {
    s.fs.profiles == tree && s.lock.None? && s.builds == map[]
  }

  ghost predicate Run(tree: Profiles, run: seq<Sys>) {
    && |run| > 0 && Init(tree, run[0])
    && forall i :: 0 < i < |run| ==> Next(run[i - 1], run[i])
  }

  /** A run of builds over sources that may be staged. */
  ghost predicate CleanRun(tree: Profiles, run: seq<Sys>) {
    TreeOk(tree) && Run(tree, run) && forall i :: 0 <= i < |run| ==> AllArgsOk(run[i])
  }

  // ---------------------------------------------------------------------------------------------
  // What every step keeps
  // ---------------------------------------------------------------------------------------------

  /** In-tree profiles carry no marker. */
  ghost predicate TreeOk(tree: Profiles) {
    forall n :: n in tree ==> !Marked(tree[n])
  }

  /** In-tree profiles are as they were; any other directory is marked, or empty. */
  ghost predicate SafeFs(tree: Profiles, fs: Fs) {
    && (forall n :: n in tree ==> n in fs.profiles && fs.profiles[n] == tree[n])
    && (forall n :: n in fs.profiles && n !in tree ==> Marked(fs.profiles[n]) || fs.profiles[n] == map[])
  }

  /** Nothing but in-tree profiles and empty directories. */
  ghost predicate Clean(tree: Profiles, profiles: Profiles) {
    forall n :: n in profiles && n !in tree ==> profiles[n] == map[]
  }

  ghost predicate StagingOk(tree: Profiles, a: Args, base: Profiles, i: nat, fs: Fs) {
    && i <= |a.dirs| && Stageable(base, a.dirs) && Clean(tree, base)
    && (forall n :: n in tree ==> n in base && base[n] == tree[n])
    && fs.sync == SyncFiles(a.inputs)
    && forall j :: 0 <= j < i ==> Marked(Copied(a.dirs[j]))
  }

  ghost predicate PcOk(tree: Profiles, a: Args, pc: Pc, fs: Fs) {
    match pc
    case Sweeping(todo) =>
      forall n :: n in fs.profiles && n !in tree && n !in todo ==> fs.profiles[n] == map[]
    case Clearing => Clean(tree, fs.profiles)
    case Writing(k) =>
      && Clean(tree, fs.profiles) && a.inputs != [] && k <= |a.inputs| && fs.sync.Some?
      && (if k < |a.inputs| then SameBut(Written(a.inputs[..k]), a.inputs[k].name, fs.sync.value)
          else fs.sync.value == Written(a.inputs))
    case Validating => Clean(tree, fs.profiles) && fs.sync == SyncFiles(a.inputs)
    case Creating(base, i) =>
      StagingOk(tree, a, base, i, fs) && fs.profiles == StagedOver(base, a.dirs[..i])
    case Marking(base, i) =>
      && StagingOk(tree, a, base, i, fs) && i < |a.dirs|
      && fs.profiles == StagedOver(base, a.dirs[..i])[a.dirs[i].Name() := map[]]
    case Copying(base, i, k) =>
      && StagingOk(tree, a, base, i, fs) && i < |a.dirs| && k <= |StepsOf(a.dirs[i])|
      && a.dirs[i].Name() in fs.profiles
      && fs.profiles == StagedOver(base, a.dirs[..i])[a.dirs[i].Name() := fs.profiles[a.dirs[i].Name()]]
      && CopyingOk(a.dirs[i], k, fs.profiles[a.dirs[i].Name()])
    case Running(base) =>
      StagingOk(tree, a, base, |a.dirs|, fs) && fs.profiles == StagedOver(base, a.dirs)
    case Unwinding(names, _) => forall i :: 0 <= i < |names| ==> names[i] !in tree
    case _ => true
  }

  ghost predicate CopyingOk(d: Source, k: nat, t: Tree)
    requires k <= |StepsOf(d)|
  {
    var whole := CopyInto(MARKER_ONLY, StepsOf(d)[..k]);
    && (forall j :: 0 <= j < k && StepsOf(d)[j].path == [MARKER] ==> StepsOf(d)[j].item.Plain?)
    && (if k < |StepsOf(d)| then SameBut(whole, StepsOf(d)[k].path, t) else t == whole)
    && [MARKER] in t && t[[MARKER]].Plain?
  }

  /** The lock is held by the one active build, if any. */
  ghost predicate Exclusive(s: Sys) {
    && (s.lock.Some? ==> s.lock.value in s.builds)
    && forall p :: p in s.builds ==> (Active(s.builds[p].pc) <==> s.lock == Some(p))
  }

  ghost predicate Inv(tree: Profiles, s: Sys) {
    && SafeFs(tree, s.fs) && Exclusive(s)
    && forall p :: p in s.builds && Active(s.builds[p].pc) ==>
         PcOk(tree, s.builds[p].args, s.builds[p].pc, s.fs)
  }

  lemma SweepKeeps(tree: Profiles, a: Args, pc: Pc, fs: Fs, pc': Pc, fs': Fs)
    requires TreeOk(tree) && SafeFs(tree, fs) && PcOk(tree, a, pc, fs)
    requires pc.Sweeping? && SweepActs(pc, fs, pc', fs')
    ensures SafeFs(tree, fs') && PcOk(tree, a, pc', fs')
  {
    hide Marked;
    assert !Marked(map[]) by {
      NothingIsUnmarked();
    }
  }

  lemma NothingIsUnmarked()
    ensures !Marked(map[])
  {
  }

  lemma ClearKeeps(tree: Profiles, a: Args, pc: Pc, fs: Fs, pc': Pc, fs': Fs)
    requires SafeFs(tree, fs) && PcOk(tree, a, pc, fs)
    requires pc.Clearing? && SyncActs(a, pc, fs, pc', fs')
    ensures SafeFs(tree, fs') && PcOk(tree, a, pc', fs')
  {
    hide Marked, SameBut;
    assert a.inputs[..0] == [];
    if pc'.Writing? {
      assert SameBut<string, string>(map[], a.inputs[0].name, map[]) by {
        SameButSelf<string, string>(map[], a.inputs[0].name);
      }
    }
  }

  lemma SameButSelf<K, V>(m: map<K, V>, key: K)
    ensures SameBut(m, key, m)
  {
  }

  lemma WriteKeeps(tree: Profiles, a: Args, pc: Pc, fs: Fs, pc': Pc, fs': Fs)
    requires SafeFs(tree, fs) && PcOk(tree, a, pc, fs)
    requires pc.Writing? && SyncActs(a, pc, fs, pc', fs')
    ensures SafeFs(tree, fs') && PcOk(tree, a, pc', fs')
  {
    hide Marked, Written;
    assert a.inputs[..|a.inputs|] == a.inputs;
    if pc.k < |a.inputs| && pc' == Writing(pc.k + 1) {
      WrittenNext(a.inputs, pc.k);
      SameButThenPut(Written(a.inputs[..pc.k]), a.inputs[pc.k].name, fs.sync.value, a.inputs[pc.k].value + "\n");
    }
  }

  lemma WrittenNext(inputs: seq<SyncInput>, k: nat)
    requires k < |inputs|
    ensures Written(inputs[..k + 1]) == Written(inputs[..k])[inputs[k].name := inputs[k].value + "\n"]
  {
    assert inputs[..k + 1][..k] == inputs[..k];
  }

  /** Any tree that is empty or marked may stand in for the copy being made. */
  lemma StagingIsSafe(tree: Profiles, a: Args, base: Profiles, i: nat, t: Tree, fs: Fs)
    requires StagingOk(tree, a, base, i, fs) && ArgsOk(a) && i < |a.dirs| && (t == map[] || Marked(t))
    requires fs.profiles == StagedOver(base, a.dirs[..i])[a.dirs[i].Name() := t]
    ensures SafeFs(tree, fs)
  {
    hide Marked, StagedOver, Copied, SafeName, HasConfig, SymlinksOk, IncludesOk, NoMarkerLink;
    StagedIsDisjoint(base, a.dirs[..i]);
    assert forall j :: 0 <= j < i ==> a.dirs[..i][j] == a.dirs[j];
  }

  lemma CopyingAdvances(d: Source, k: nat, t: Tree)
    requires NoMarkerLink(d) && k < |StepsOf(d)| && CopyingOk(d, k, t) && !Blocked(t, StepsOf(d)[k])
    ensures CopyingOk(d, k + 1, t[StepsOf(d)[k].path := StepsOf(d)[k].item])
  {
    hide CopySteps, CopyInto;
    var steps := StepsOf(d);
    CopyIntoNext(MARKER_ONLY, steps, k);
    SameButThenPut(CopyInto(MARKER_ONLY, steps[..k]), steps[k].path, t, steps[k].item);
    MarkerStepIsPlain(d, k, t);
    CopiesStayMarked(d, k + 1);
  }

  /** A directory in the marker's place would be refused, and a symlink is not there. */
  lemma MarkerStepIsPlain(d: Source, k: nat, t: Tree)
    requires NoMarkerLink(d) && k < |StepsOf(d)| && CopyingOk(d, k, t) && !Blocked(t, StepsOf(d)[k])
    ensures StepsOf(d)[k].path == [MARKER] ==> StepsOf(d)[k].item.Plain?
  {
    hide CopySteps, CopyInto;
    if StepsOf(d)[k].path == [MARKER] {
      MarkerSteps(d, StepsOf(d)[k]);
    }
  }

  lemma CopyingTears(d: Source, k: nat, t: Tree, t': Tree)
    requires NoMarkerLink(d) && k < |StepsOf(d)| && CopyingOk(d, k, t) && !Blocked(t, StepsOf(d)[k])
    requires Torn(t, StepsOf(d)[k], t')
    ensures CopyingOk(d, k, t')
  {
    hide CopySteps, CopyInto;
    MarkerStepIsPlain(d, k, t);
    if StepsOf(d)[k].path != [MARKER] {
      SameButThenPut(t, StepsOf(d)[k].path, t', SubDir);
    }
  }

  lemma CreatingKeeps(tree: Profiles, a: Args, pc: Pc, fs: Fs, pc': Pc, fs': Fs)
    requires TreeOk(tree) && ArgsOk(a) && SafeFs(tree, fs) && PcOk(tree, a, pc, fs)
    requires (pc.Validating? || pc.Creating?) && StageActs(a, pc, fs, pc', fs')
    ensures SafeFs(tree, fs') && PcOk(tree, a, pc', fs')
  {
    hide Marked, Copied, Stageable, NoMarkerLink;
    assert a.dirs[..|a.dirs|] == a.dirs && a.dirs[..0] == [];
    if pc.Creating? && pc.i < |a.dirs| {
      StagingIsSafe(tree, a, pc.base, pc.i, map[], fs');
    }
  }

  lemma MarkingKeeps(tree: Profiles, a: Args, pc: Pc, fs: Fs, pc': Pc, fs': Fs)
    requires TreeOk(tree) && ArgsOk(a) && SafeFs(tree, fs) && PcOk(tree, a, pc, fs)
    requires pc.Marking? && StageActs(a, pc, fs, pc', fs')
    ensures SafeFs(tree, fs') && PcOk(tree, a, pc', fs')
  {
    hide Copied, Stageable, NoMarkerLink, StagedOver, CopySteps;
    var d := a.dirs[pc.i];
    assert fs'.profiles[d.Name()] == MARKER_ONLY;
    assert CopyingOk(d, 0, MARKER_ONLY);
    assert Marked(MARKER_ONLY);
    StagingIsSafe(tree, a, pc.base, pc.i, MARKER_ONLY, fs');
  }

  lemma CopyingKeeps(tree: Profiles, a: Args, pc: Pc, fs: Fs, pc': Pc, fs': Fs)
    requires TreeOk(tree) && ArgsOk(a) && SafeFs(tree, fs) && PcOk(tree, a, pc, fs)
    requires pc.Copying? && StageActs(a, pc, fs, pc', fs')
    ensures SafeFs(tree, fs') && PcOk(tree, a, pc', fs')
  {
    hide Stageable, NoMarkerLink, StagedOver, CopySteps, CopyInto, SafeFs, Torn, Blocked;
    var i, k := pc.i, pc.k;
    var d := a.dirs[i];
    var t := fs.profiles[d.Name()];
    if k == |StepsOf(d)| {
      assert StepsOf(d)[..k] == StepsOf(d);
      assert a.dirs[..i + 1][..i] == a.dirs[..i];
      StagedOverNext(pc.base, a.dirs, i);
    } else {
      var t' := fs'.profiles[d.Name()];
      if pc' == Copying(pc.base, i, k + 1) {
        CopyingAdvances(d, k, t);
      } else {
        CopyingTears(d, k, t, t');
      }
      assert fs'.profiles == StagedOver(pc.base, a.dirs[..i])[d.Name() := t'];
      StagingIsSafe(tree, a, pc.base, i, t', fs');
    }
  }

  lemma StagedOverNext(base: Profiles, dirs: seq<Source>, i: nat)
    requires i < |dirs|
    ensures StagedOver(base, dirs[..i + 1]) == StagedOver(base, dirs[..i])[dirs[i].Name() := Copied(dirs[i])]
  {
    assert dirs[..i + 1][..i] == dirs[..i];
  }

  lemma UnwindKeeps(tree: Profiles, a: Args, pc: Pc, fs: Fs, pc': Pc, fs': Fs)
    requires SafeFs(tree, fs) && PcOk(tree, a, pc, fs)
    requires pc.Unwinding? && UnwindActs(pc, fs, pc', fs')
    ensures SafeFs(tree, fs') && PcOk(tree, a, pc', fs')
  {
    hide Marked;
  }

  /** No guard is ever held on an in-tree profile. */
  lemma GuardsAreOurs(tree: Profiles, a: Args, pc: Pc, fs: Fs)
    requires PcOk(tree, a, pc, fs)
    ensures forall j :: 0 <= j < |GuardedNames(a, pc)| ==> GuardedNames(a, pc)[j] !in tree || pc.Unwinding?
  {
    hide Marked, StagedOver, Copied, SafeName, HasConfig, SymlinksOk, IncludesOk, NoMarkerLink, CopyingOk;
  }

  lemma MoveKeeps(tree: Profiles, a: Args, pc: Pc, fs: Fs, pc': Pc, fs': Fs)
    requires TreeOk(tree) && ArgsOk(a) && SafeFs(tree, fs) && PcOk(tree, a, pc, fs)
    requires Acts(a, pc, fs, pc', fs') || Returns(a, pc, fs, pc', fs')
    ensures SafeFs(tree, fs') && PcOk(tree, a, pc', fs')
  {
    hide SafeFs, SweepActs, SyncActs, StageActs, UnwindActs, TreeOk, ArgsOk;
    if Returns(a, pc, fs, pc', fs') {
      GuardsAreOurs(tree, a, pc, fs);
    } else {
      hide PcOk;
      match pc
      case Sweeping(_) => SweepKeeps(tree, a, pc, fs, pc', fs');
      case Clearing => ClearKeeps(tree, a, pc, fs, pc', fs');
      case Writing(_) => WriteKeeps(tree, a, pc, fs, pc', fs');
      case Validating => CreatingKeeps(tree, a, pc, fs, pc', fs');
      case Creating(_, _) => CreatingKeeps(tree, a, pc, fs, pc', fs');
      case Marking(_, _) => MarkingKeeps(tree, a, pc, fs, pc', fs');
      case Copying(_, _, _) => CopyingKeeps(tree, a, pc, fs, pc', fs');
      case Unwinding(_, _) => UnwindKeeps(tree, a, pc, fs, pc', fs');
    }
  }

  lemma {:induction false} StepKeeps(tree: Profiles, s: Sys, p: nat, s': Sys)
    requires TreeOk(tree) && AllArgsOk(s) && Inv(tree, s) && Steps(s, p, s')
    ensures Inv(tree, s')
  {
    hide SafeFs, Acts, Returns, ArgsOk, TreeOk, PcOk;
    if Starts(s, p, s') {
    } else if Locks(s, p, s') {
      LockKeeps(tree, s, p, s');
    } else if Moves(s, p, s') {
      var b, b' := s.builds[p], s'.builds[p];
      MovesAreActive(b.args, b.pc, s.fs, b'.pc, s'.fs);
      MoveKeeps(tree, b.args, b.pc, s.fs, b'.pc, s'.fs);
    }
  }

  lemma LockKeeps(tree: Profiles, s: Sys, p: nat, s': Sys)
    requires Inv(tree, s) && Locks(s, p, s')
    ensures Inv(tree, s')
  {
    hide SafeFs, ArgsOk;
  }

  lemma MovesAreActive(a: Args, pc: Pc, fs: Fs, pc': Pc, fs': Fs)
    requires Acts(a, pc, fs, pc', fs') || Returns(a, pc, fs, pc', fs')
    ensures Active(pc) && !pc'.Idle?
  {
  }

  lemma {:induction false} RunKeeps(tree: Profiles, run: seq<Sys>, i: nat)
    requires CleanRun(tree, run) && i < |run|
    ensures Inv(tree, run[i])
  {
    hide Steps, Inv, AllArgsOk;
    if i == 0 {
      InitHolds(tree, run[0]);
    } else {
      RunKeeps(tree, run, i - 1);
      assert Next(run[i - 1], run[i]);
      var p :| Steps(run[i - 1], p, run[i]);
      StepKeeps(tree, run[i - 1], p, run[i]);
    }
  }

  lemma InitHolds(tree: Profiles, s: Sys)
    requires Init(tree, s)
    ensures Inv(tree, s)
  {
  }

  // ---------------------------------------------------------------------------------------------
  // What that means
  // ---------------------------------------------------------------------------------------------

  /**
   * Over every run of builds, each finishing, failing or killed at any step: in-tree profiles are
   * never written or removed, any other directory with content carries the marker, and the lock
   * holder is the only build at work.
   */
  lemma StagingIsAlwaysSafe(tree: Profiles, run: seq<Sys>, i: nat)
    requires CleanRun(tree, run) && i < |run|
    ensures forall n :: n in tree ==> n in run[i].fs.profiles && run[i].fs.profiles[n] == tree[n]
    ensures forall n :: n in run[i].fs.profiles && n !in tree && run[i].fs.profiles[n] != map[] ==>
              Marked(run[i].fs.profiles[n])
    ensures forall p :: p in run[i].builds && Active(run[i].builds[p].pc) ==> run[i].lock == Some(p)
  {
    hide CleanRun, PcOk, ArgsOk;
    RunKeeps(tree, run, i);
  }

  lemma StepKeepsLock(s: Sys, p: nat, s': Sys)
    requires Exclusive(s) && Steps(s, p, s')
    ensures Exclusive(s')
  {
    hide Acts, Returns;
    if Moves(s, p, s') {
      MovesAreActive(s.builds[p].args, s.builds[p].pc, s.fs, s'.builds[p].pc, s'.fs);
    }
  }

  /** Whatever the sources: never two builds at work. */
  lemma {:induction false} RunIsExclusive(tree: Profiles, run: seq<Sys>, i: nat)
    requires Run(tree, run) && i < |run|
    ensures Exclusive(run[i])
  {
    hide Steps;
    if i > 0 {
      RunIsExclusive(tree, run, i - 1);
      assert Next(run[i - 1], run[i]);
      var p :| Steps(run[i - 1], p, run[i]);
      StepKeepsLock(run[i - 1], p, run[i]);
    }
  }

  /** Only the lock holder changes the file system, by sweeping or otherwise. */
  lemma OnlyTheHolderWrites(tree: Profiles, run: seq<Sys>, i: nat, p: nat)
    requires Run(tree, run) && i + 1 < |run| && Steps(run[i], p, run[i + 1])
    requires run[i].fs != run[i + 1].fs
    ensures run[i].lock == Some(p)
  {
    hide Run, Acts, Returns;
    RunIsExclusive(tree, run, i);
    var b, b' := run[i].builds[p], run[i + 1].builds[p];
    MovesAreActive(b.args, b.pc, run[i].fs, b'.pc, run[i + 1].fs);
  }

  predicate HasSwept(pc: Pc) {
    pc.Clearing? || pc.Writing? || pc.Validating?
  }

  /**
   * However the builds before it ended: once a build has swept, no staged content is left, only
   * empty unmarked directories; and once it has written its sync inputs, the sync-input directory
   * holds its values and no others.
   */
  lemma SweepAndSyncRecover(tree: Profiles, run: seq<Sys>, i: nat, p: nat)
    requires CleanRun(tree, run) && i < |run| && p in run[i].builds
    ensures HasSwept(run[i].builds[p].pc) ==>
              forall n :: n in run[i].fs.profiles && n !in tree ==> run[i].fs.profiles[n] == map[]
    ensures LocalGuarded(run[i].builds[p].pc) ==> run[i].fs.sync == SyncFiles(run[i].builds[p].args.inputs)
  {
    hide CleanRun, ArgsOk, Acts, Returns, Stageable, CopyingOk, Marked;
    RunKeeps(tree, run, i);
  }

  /**
   * While mkosi runs it sees each of this build's profile directories whole, the checkout's own
   * profiles, and besides them only empty directories.
   */
  lemma MkosiSeesThisBuild(tree: Profiles, run: seq<Sys>, i: nat, p: nat)
    requires CleanRun(tree, run) && i < |run| && p in run[i].builds && run[i].builds[p].pc.Running?
    ensures var dirs, profiles := run[i].builds[p].args.dirs, run[i].fs.profiles;
            && (forall j :: 0 <= j < |dirs| ==>
                 dirs[j].Name() in profiles && profiles[dirs[j].Name()] == Copied(dirs[j]))
            && (forall n :: n in tree ==> n in profiles && profiles[n] == tree[n])
            && forall n :: n in profiles && n !in tree && (forall j :: 0 <= j < |dirs| ==> dirs[j].Name() != n) ==>
                 profiles[n] == map[]
  {
    hide CleanRun, ArgsOk, Acts, Returns, CopyingOk, Marked, Copied, StagedOver;
    hide SafeName, HasConfig, SymlinksOk, IncludesOk;
    RunKeeps(tree, run, i);
    var b := run[i].builds[p];
    StagedIsDisjoint(b.pc.base, b.args.dirs);
  }

  /**
   * And re-parenting has not changed what the staged copies mean: under every root, a link outside
   * the exempt subtrees names that root followed by the path it names in the copy alone.
   */
  lemma StagedLinksMeanTheSame(tree: Profiles, run: seq<Sys>, i: nat, p: nat, j: nat, at: Path, root: Path)
    requires CleanRun(tree, run) && i < |run| && p in run[i].builds && run[i].builds[p].pc.Running?
    requires j < |run[i].builds[p].args.dirs|
    requires var d := run[i].builds[p].args.dirs[j];
             && d.Name() in run[i].fs.profiles
             && at in run[i].fs.profiles[d.Name()] && run[i].fs.profiles[d.Name()][at].Symlink?
    requires at != [] && !Exempt(at[..|at| - 1])
    ensures var link := run[i].fs.profiles[run[i].builds[p].args.dirs[j].Name()][at];
            Resolve(root + at[..|at| - 1], link.target) == root + Resolve(at[..|at| - 1], link.target)
  {
    hide CleanRun, ArgsOk, CopyInto, StagedOver, SafeName, HasConfig, SymlinksOk, IncludesOk, Exempt, Escapes, Portable;
    hide CopySteps, SitesIn, AnchorPath, ContainerPath;
    MkosiSeesThisBuild(tree, run, i, p);
    RunKeeps(tree, run, i);
    var d := run[i].builds[p].args.dirs[j];
    var item := Copied(d)[at];
    CopyIntoAt(MARKER_ONLY, CopySteps(d.entries, []), at);
    var s := StepsAreSites(d.entries, [], CopyStep(at, item));
    assert at[..|at| - 1] == s.parent;
    RootsOfWalk();
    SymlinkWalkExact(d.entries, []);
    EscapesExactlyWhenNotPortable(s.parent, item.target);
    StaysInside(root, s.parent, item.target);
  }

  /**
   * The same for the includes of the configuration files mkosi parses: of every entry of the source
   * that holds or leads to such a file, which the copy has at the same path.
   */
  lemma StagedIncludesMeanTheSame(tree: Profiles, run: seq<Sys>, i: nat, p: nat, j: nat, s: Site, root: Path, k: nat)
    requires CleanRun(tree, run) && i < |run| && p in run[i].builds && run[i].builds[p].pc.Running?
    requires j < |run[i].builds[p].args.dirs| && NoLinkedDropins(run[i].builds[p].args.dirs[j].entries, [])
    requires s in SitesIn(run[i].builds[p].args.dirs[j].entries, []) && Parsed(s.parent + [s.name])
    requires TextOf(s.node).Some? && k < |IncludeTargets(Text.Lines(TextOf(s.node).value))|
    ensures var d, at := run[i].builds[p].args.dirs[j], s.parent + [s.name];
            && d.Name() in run[i].fs.profiles && at in run[i].fs.profiles[d.Name()]
            && (OneSitePerPath(SitesIn(d.entries, [])) ==> run[i].fs.profiles[d.Name()][at] == ItemOf(s.node))
    ensures var at := s.parent + [s.name];
            var target := Components(IncludeTargets(Text.Lines(TextOf(s.node).value))[k]);
            Resolve(root + AnchorOf(at), target) == root + Resolve(AnchorOf(at), target)
  {
    hide CleanRun, ArgsOk, CopyInto, StagedOver, SafeName, HasConfig, SymlinksOk, IncludesOk, Exempt, Escapes, Portable;
    hide CopySteps, SitesIn, AnchorPath, ContainerPath, IncludeTargets, Components, NoLinkedDropins, ConfName;
    hide Parsed, TextOf;
    MkosiSeesThisBuild(tree, run, i, p);
    RunKeeps(tree, run, i);
    var d, at := run[i].builds[p].args.dirs[j], s.parent + [s.name];
    CopyHasSite(d, s);
    RootsOfWalk();
    IncludeWalkExact(d.entries, []);
    var target := Components(IncludeTargets(Text.Lines(TextOf(s.node).value))[k]);
    ParsedSite(s, TextOf(s.node).value, k);
    EscapesExactlyWhenNotPortable(AnchorOf(at), target);
    StaysInside(root, AnchorOf(at), target);
  }

  lemma CopyHasSite(d: Source, s: Site)
    requires s in SitesIn(d.entries, [])
    ensures s.parent + [s.name] in Copied(d)
    ensures OneSitePerPath(SitesIn(d.entries, [])) ==> Copied(d)[s.parent + [s.name]] == ItemOf(s.node)
  {
    hide CopySteps, CopyInto, SitesIn;
    SitesAreSteps(d.entries, [], s);
    CopyIntoAt(MARKER_ONLY, CopySteps(d.entries, []), s.parent + [s.name]);
    if OneSitePerPath(SitesIn(d.entries, [])) {
      assert StepIsSite(CopyStep(s.parent + [s.name], ItemOf(s.node)), s);
      CopyIsExact(d, s.parent + [s.name], ItemOf(s.node));
    }
  }

  lemma ParsedSite(s: Site, text: string, k: nat)
    requires IncludesAllowed(s) && TextOf(s.node) == Some(text) && Parsed(s.parent + [s.name])
    requires k < |IncludeTargets(Text.Lines(text))|
    ensures Portable(AnchorOf(s.parent + [s.name]), Components(IncludeTargets(Text.Lines(text))[k]))
  {
    hide Portable, AnchorPath, IncludeTargets, Components, ConfName;
    var at := s.parent + [s.name];
    assert at[..|at| - 1] == s.parent && at[|at| - 1] == s.name;
    if !(AnchorPath(s.parent) && MainConfig(s.name)) {
      assert at[..|at| - 2] == s.parent[..|s.parent| - 1];
    }
  }

  /** A path at which mkosi parses a configuration file. */
  predicate Parsed(at: Path) {
    && at != []
    && var parent, name := at[..|at| - 1], at[|at| - 1];
       (AnchorPath(parent) && MainConfig(name)) || (ContainerPath(parent) && ConfName(name))
  }

  /** The directory its includes are resolved from. */
  function AnchorOf(at: Path): Path
    requires Parsed(at)
  {
    if AnchorPath(at[..|at| - 1]) && MainConfig(at[|at| - 1]) then at[..|at| - 1] else at[..|at| - 2]
  }

  lemma RootsOfWalk()
    ensures AnchorPath([]) && !ContainerPath([]) && !Exempt([])
  {
  }

  /** Guards that all succeed leave what was there when staging began. */
  lemma {:induction false} CleanUnwindRestores(base: Profiles, dirs: seq<Source>, pcs: seq<Pc>, states: seq<Fs>)
    requires Stageable(base, dirs)
    requires |pcs| == |states| == |dirs| + 1 && pcs[0] == Unwinding(Names(dirs), true)
    requires states[0].profiles == StagedOver(base, dirs)
    requires forall k :: 0 < k <= |dirs| ==> RemovesOne(pcs[k - 1], states[k - 1], pcs[k], states[k])
    ensures pcs[|dirs|] == Unwinding([], true) && states[|dirs|].profiles == base
  {
    hide StagedOver, SafeName, HasConfig, SymlinksOk, IncludesOk;
    UnwindRemoves(dirs, pcs, states, |dirs|);
    assert dirs[..|dirs|] == dirs;
    GuardsUndoStaging(base, dirs);
  }

  ghost predicate RemovesOne(pc: Pc, fs: Fs, pc': Pc, fs': Fs) {
    && pc.Unwinding? && pc.names != [] && UnwindActs(pc, fs, pc', fs')
    && pc.names[0] !in fs'.profiles
  }

  lemma {:induction false} UnwindRemoves(dirs: seq<Source>, pcs: seq<Pc>, states: seq<Fs>, n: nat)
    requires |pcs| == |states| == |dirs| + 1 && n <= |dirs| && pcs[0] == Unwinding(Names(dirs), true)
    requires forall k :: 0 < k <= n ==> RemovesOne(pcs[k - 1], states[k - 1], pcs[k], states[k])
    ensures pcs[n] == Unwinding(Names(dirs)[n..], true)
    ensures states[n].profiles == states[0].profiles - NameSet(dirs[..n])
  {
    if n > 0 {
      UnwindRemoves(dirs, pcs, states, n - 1);
      assert RemovesOne(pcs[n - 1], states[n - 1], pcs[n], states[n]);
      NameSetNext(dirs, n - 1);
      assert states[n].profiles == states[n - 1].profiles - {dirs[n - 1].Name()};
    }
  }

  // ---------------------------------------------------------------------------------------------
  // What is never cleaned up
  // ---------------------------------------------------------------------------------------------

  /** The build may still write or remove the directory. */
  predicate Involves(a: Args, pc: Pc, name: string) {
    match pc
    case Creating(_, _) => name in Names(a.dirs)
    case Marking(_, _) => name in Names(a.dirs)
    case Copying(_, _, _) => name in Names(a.dirs)
    case Running(_) => name in Names(a.dirs)
    case Unwinding(names, _) => name in names
    case _ => false
  }

  /** An unmarked directory that no build is at work on. */
  ghost predicate Left(s: Sys, name: string, t: Tree) {
    && name in s.fs.profiles && s.fs.profiles[name] == t && !Marked(t)
    && forall p :: p in s.builds ==> !Involves(s.builds[p].args, s.builds[p].pc, name)
  }

  lemma GuardedAreNamed(a: Args, pc: Pc, name: string)
    requires name in GuardedNames(a, pc)
    ensures name in Names(a.dirs) && Involves(a, pc, name)
  {
    var i :| 0 <= i < |GuardedNames(a, pc)| && GuardedNames(a, pc)[i] == name;
    assert Names(a.dirs)[i] == name;
  }

  lemma MoveLeaves(a: Args, pc: Pc, fs: Fs, pc': Pc, fs': Fs, name: string)
    requires Acts(a, pc, fs, pc', fs') || Returns(a, pc, fs, pc', fs')
    requires name in fs.profiles && !Marked(fs.profiles[name]) && !Involves(a, pc, name)
    ensures name in fs'.profiles && fs'.profiles[name] == fs.profiles[name] && !Involves(a, pc', name)
  {
    hide Marked, Blocked, Torn, GuardedNames, StepsOf;
    if Returns(a, pc, fs, pc', fs') {
      if name in GuardedNames(a, pc) {
        GuardedAreNamed(a, pc, name);
      }
    } else if pc.Validating? {
      NotNamed(fs.profiles, a.dirs, name);
    } else if pc.Unwinding? && pc.names != [] {
      assert pc.names[0] in pc.names;
    } else if pc.Creating? || pc.Marking? || pc.Copying? {
      if pc.i < |a.dirs| {
        assert Names(a.dirs)[pc.i] == a.dirs[pc.i].Name();
      }
    }
  }

  lemma NotNamed(profiles: Profiles, dirs: seq<Source>, name: string)
    requires name in profiles && Stageable(profiles, dirs)
    ensures name !in Names(dirs)
  {
    hide SafeName, HasConfig, SymlinksOk, IncludesOk;
    assert forall i :: 0 <= i < |dirs| ==> Names(dirs)[i] == dirs[i].Name();
  }

  lemma StepLeaves(s: Sys, p: nat, s': Sys, name: string, t: Tree)
    requires Left(s, name, t) && Steps(s, p, s')
    ensures Left(s', name, t)
  {
    hide Acts, Returns, Marked;
    if Moves(s, p, s') {
      var b, b' := s.builds[p], s'.builds[p];
      MoveLeaves(b.args, b.pc, s.fs, b'.pc, s'.fs, name);
    }
  }

  /**
   * What is left is left for good: in every run, over whatever sources, an unmarked directory that
   * no build is at work on stays as it is, and from then on no build with a profile directory of
   * that name gets past validation.
   */
  lemma {:induction false} LeftIsForever(tree: Profiles, run: seq<Sys>, i: nat, j: nat, name: string, t: Tree)
    requires Run(tree, run) && i <= j < |run| && Left(run[i], name, t)
    ensures Left(run[j], name, t)
    ensures forall p, k :: p in run[j].builds && 0 <= k < |run[j].builds[p].args.dirs|
                           && run[j].builds[p].args.dirs[k].Name() == name ==>
              && !Stageable(run[j].fs.profiles, run[j].builds[p].args.dirs)
              && !run[j].builds[p].pc.Creating? && !run[j].builds[p].pc.Running?
    decreases j - i
  {
    hide Init, Steps, Stageable;
    if i < j {
      assert Next(run[i], run[i + 1]);
      var p :| Steps(run[i], p, run[i + 1]);
      StepLeaves(run[i], p, run[i + 1], name, t);
      LeftIsForever(tree, run, i + 1, j, name, t);
    } else {
      forall p, k | p in run[j].builds && 0 <= k < |run[j].builds[p].args.dirs|
                    && run[j].builds[p].args.dirs[k].Name() == name
        ensures !Stageable(run[j].fs.profiles, run[j].builds[p].args.dirs)
        ensures !run[j].builds[p].pc.Creating? && !run[j].builds[p].pc.Running?
      {
        var a := run[j].builds[p].args;
        assert Names(a.dirs)[k] == name;
        if Stageable(run[j].fs.profiles, a.dirs) {
          NotNamed(run[j].fs.profiles, a.dirs, name);
        }
      }
    }
  }

  /** A build killed between making a directory and marking it leaves one. */
  lemma KillBeforeMarkerLeaves(tree: Profiles, run: seq<Sys>, i: nat, p: nat)
    requires CleanRun(tree, run) && i + 1 < |run| && p in run[i].builds && run[i].builds[p].pc.Marking?
    requires Dies(run[i], p, run[i + 1])
    ensures var b := run[i].builds[p];
            b.pc.i < |b.args.dirs| && Left(run[i + 1], b.args.dirs[b.pc.i].Name(), map[])
  {
    hide CleanRun, Stageable, StagedOver, CopyingOk, Copied, SafeFs;
    RunKeeps(tree, run, i);
    var builds := run[i + 1].builds;
    assert forall q :: q in builds ==> !Active(builds[q].pc);
  }

  /** So every later build over that profile is refused, in every continuation of the run. */
  lemma KillBeforeMarkerIsForever(tree: Profiles, run: seq<Sys>, i: nat, p: nat, j: nat)
    requires CleanRun(tree, run) && i < j < |run| && p in run[i].builds && run[i].builds[p].pc.Marking?
    requires Dies(run[i], p, run[i + 1])
    ensures var b := run[i].builds[p];
            && b.pc.i < |b.args.dirs|
            && var name := b.args.dirs[b.pc.i].Name();
               && Left(run[j], name, map[])
               && forall q, k :: q in run[j].builds && 0 <= k < |run[j].builds[q].args.dirs|
                                 && run[j].builds[q].args.dirs[k].Name() == name ==>
                    && !Stageable(run[j].fs.profiles, run[j].builds[q].args.dirs)
                    && !run[j].builds[q].pc.Creating? && !run[j].builds[q].pc.Running?
  {
    hide CleanRun, Stageable, Left, Dies;
    KillBeforeMarkerLeaves(tree, run, i, p);
    var b := run[i].builds[p];
    CleanRunIsRun(tree, run);
    LeftIsForever(tree, run, i + 1, j, b.args.dirs[b.pc.i].Name(), map[]);
  }

  lemma CleanRunIsRun(tree: Profiles, run: seq<Sys>)
    requires CleanRun(tree, run)
    ensures Run(tree, run)
  {
    hide Run, TreeOk, AllArgsOk;
  }

  /** Whatever else a sweep has spared is one, too. */
  lemma SweptRemainsAreLeft(tree: Profiles, run: seq<Sys>, i: nat, p: nat, name: string)
    requires CleanRun(tree, run) && i < |run| && p in run[i].builds && HasSwept(run[i].builds[p].pc)
    requires name in run[i].fs.profiles && name !in tree
    ensures Left(run[i], name, map[])
  {
    hide CleanRun, Stageable, StagedOver, CopyingOk, Copied, SafeFs;
    RunKeeps(tree, run, i);
    var builds := run[i].builds;
    assert forall q :: q in builds && q != p ==> !Active(builds[q].pc);
  }

  /**
   * The exact condition: at validation a directory that is sound in itself, under a name the
   * checkout does not use, is refused if and only if an empty unmarked directory of that name has
   * been left; and then the complaint is a collision with an in-tree profile.
   */
  lemma RefusedExactlyWhenLeft(tree: Profiles, run: seq<Sys>, i: nat, p: nat, d: Source)
    requires CleanRun(tree, run) && i < |run| && p in run[i].builds && run[i].builds[p].pc.Validating?
    requires SafeName(d.Name()) && HasConfig(d.entries) && d.Name() !in tree
    requires SymlinksOk(d.entries, [], true, false) && IncludesOk(d.entries, [])
    ensures !Stageable(run[i].fs.profiles, [d]) <==> Left(run[i], d.Name(), map[])
    ensures FirstComplaint(run[i].fs.profiles, [d], 0) ==
            if Left(run[i], d.Name(), map[]) then Some(CollidesWithInTree) else None
  {
    hide CleanRun, SafeName, HasConfig, SymlinksOk, IncludesOk;
    ValidationIsExact(run[i].fs.profiles, [d]);
    if d.Name() in run[i].fs.profiles {
      SweptRemainsAreLeft(tree, run, i, p, d.Name());
    }
  }

  /** The states of one build over `d` alone, killed with the directory made and not yet marked. */
  function KilledBuild(d: Source): seq<Sys> {
    var a, empty := Args([d], []), Fs(map[], None);
    [Sys(empty, None, map[]),
     Sys(empty, None, map[0 := Build(a, Idle)]),
     Sys(empty, Some(0), map[0 := Build(a, Sweeping({}))]),
     Sys(empty, Some(0), map[0 := Build(a, Clearing)]),
     Sys(empty, Some(0), map[0 := Build(a, Validating)]),
     Sys(empty, Some(0), map[0 := Build(a, Creating(map[], 0))]),
     Sys(Fs(map[d.Name() := map[]], None), Some(0), map[0 := Build(a, Marking(map[], 0))])]
  }

  /** The same build started again after the kill. */
  function NextBuild(d: Source): seq<Sys> {
    var a, left := Args([d], []), Fs(map[d.Name() := map[]], None);
    [Sys(left, None, map[0 := Build(a, Done)]),
     Sys(left, None, map[0 := Build(a, Done), 1 := Build(a, Idle)]),
     Sys(left, Some(1), map[0 := Build(a, Done), 1 := Build(a, Sweeping({d.Name()}))]),
     Sys(left, Some(1), map[0 := Build(a, Done), 1 := Build(a, Sweeping({}))]),
     Sys(left, Some(1), map[0 := Build(a, Done), 1 := Build(a, Clearing)]),
     Sys(left, Some(1), map[0 := Build(a, Done), 1 := Build(a, Validating)])]
  }

  lemma KilledBuildRuns(d: Source, i: nat)
    requires Stageable(map[], [d]) && 0 < i < |KilledBuild(d)|
    ensures Steps(KilledBuild(d)[i - 1], 0, KilledBuild(d)[i])
  {
    hide Stageable, Marked;
    var a := Args([d], []);
    var s, s' := KilledBuild(d)[i - 1], KilledBuild(d)[i];
    if i == 1 {
      assert Starts(s, 0, s');
    } else if i == 2 {
      assert s.fs.profiles.Keys == {};
      assert s.builds[0].(pc := Sweeping({})) == Build(a, Sweeping({}));
      assert Locks(s, 0, s');
    } else {
      assert Acts(a, s.builds[0].pc, s.fs, s'.builds[0].pc, s'.fs);
    }
  }

  lemma NextBuildRuns(d: Source, i: nat)
    requires 0 < i < |NextBuild(d)|
    ensures Steps(NextBuild(d)[i - 1], 1, NextBuild(d)[i])
  {
    hide Stageable;
    var a := Args([d], []);
    var s, s' := NextBuild(d)[i - 1], NextBuild(d)[i];
    if i == 1 {
      assert Starts(s, 1, s');
    } else if i == 2 {
      assert s.fs.profiles.Keys == {d.Name()};
      assert Locks(s, 1, s');
    } else {
      if i == 3 {
        assert {d.Name()} - {d.Name()} == {};
        assert d.Name() in s.builds[1].pc.todo;
      }
      assert Acts(a, s.builds[1].pc, s.fs, s'.builds[1].pc, s'.fs);
    }
  }

  /** An instance, in a checkout with no profile at all: killed, started again, refused. */
  lemma KillBeforeMarkerBlocks(d: Source)
    requires Stageable(map[], [d])
    ensures var run := KilledBuild(d) + NextBuild(d);
            var last := run[|run| - 1];
            && Run(map[], run) && Left(run[|KilledBuild(d)|], d.Name(), map[])
            && last.lock == Some(1) && last.builds[1] == Build(Args([d], []), Validating)
            && FirstComplaint(last.fs.profiles, [d], 0) == Some(CollidesWithInTree)
  {
    hide Steps;
    var first, second := KilledBuild(d), NextBuild(d);
    var run := first + second;
    assert Complaint(map[], [d], 0).None? by {
      ValidationIsExact(map[], [d]);
      ComplaintsAreExact(map[], [d], 0);
    }
    forall i | 0 < i < |run|
      ensures Next(run[i - 1], run[i])
    {
      if i < |first| {
        KilledBuildRuns(d, i);
        assert Steps(run[i - 1], 0, run[i]);
      } else if i == |first| {
        KillLeaves(d);
        assert Steps(run[i - 1], 0, run[i]);
      } else {
        NextBuildRuns(d, i - |first|);
        assert Steps(run[i - 1], 1, run[i]);
      }
    }
  }

  lemma KillLeaves(d: Source)
    ensures Steps(KilledBuild(d)[|KilledBuild(d)| - 1], 0, NextBuild(d)[0])
  {
    assert Dies(KilledBuild(d)[6], 0, NextBuild(d)[0]);
  }

  /** The one build at its copy, and after a kill. */
  function CopyingState(d: Source, t: Tree, k: nat): Sys {
    Sys(Fs(map[d.Name() := t], None), Some(0), map[0 := Build(Args([d], []), Copying(map[], 0, k))])
  }

  function KilledState(d: Source, t: Tree): Sys {
    Sys(Fs(map[d.Name() := t], None), None, map[0 := Build(Args([d], []), Done)])
  }

  /** The states of the same build when it lives to make the first `n` steps of its copy. */
  function CopyingBuild(d: Source, n: nat): (run: seq<Sys>)
    requires n <= |StepsOf(d)|
    ensures |run| == n + 8 && run[n + 7] == CopyingState(d, CopyInto(MARKER_ONLY, StepsOf(d)[..n]), n)
  {
    (if n == 0 then KilledBuild(d) else CopyingBuild(d, n - 1))
    + [CopyingState(d, CopyInto(MARKER_ONLY, StepsOf(d)[..n]), n)]
  }

  lemma RunExtends(tree: Profiles, run: seq<Sys>, p: nat, s: Sys)
    requires Run(tree, run) && Steps(run[|run| - 1], p, s)
    ensures Run(tree, run + [s])
  {
    hide Steps, Init;
    var longer := run + [s];
    forall i | 0 < i < |longer|
      ensures Next(longer[i - 1], longer[i])
    {
      if i < |run| {
        assert Next(run[i - 1], run[i]);
      } else {
        assert Steps(longer[i - 1], p, longer[i]);
      }
    }
  }

  lemma KilledBuildIsRun(d: Source)
    requires Stageable(map[], [d])
    ensures Run(map[], KilledBuild(d))
  {
    hide Steps;
    var run := KilledBuild(d);
    forall i | 0 < i < |run|
      ensures Next(run[i - 1], run[i])
    {
      KilledBuildRuns(d, i);
      assert Steps(run[i - 1], 0, run[i]);
    }
  }

  lemma MarkingRuns(d: Source)
    ensures Steps(KilledBuild(d)[6], 0, CopyingState(d, MARKER_ONLY, 0))
  {
    hide CopySteps, CopyInto;
    var a := Args([d], []);
    var s, s' := KilledBuild(d)[6], CopyingState(d, MARKER_ONLY, 0);
    assert s.fs.profiles[d.Name()][[MARKER] := Plain("")] == MARKER_ONLY;
    assert Acts(a, s.builds[0].pc, s.fs, s'.builds[0].pc, s'.fs);
  }

  lemma CopyingRuns(d: Source, k: nat)
    requires k < |StepsOf(d)| && !BlockedAt(d, k)
    ensures Steps(CopyingState(d, CopyInto(MARKER_ONLY, StepsOf(d)[..k]), k), 0,
                  CopyingState(d, CopyInto(MARKER_ONLY, StepsOf(d)[..k + 1]), k + 1))
  {
    hide CopySteps, CopyInto, Blocked;
    CopyIntoNext(MARKER_ONLY, StepsOf(d), k);
    var a := Args([d], []);
    var s := CopyingState(d, CopyInto(MARKER_ONLY, StepsOf(d)[..k]), k);
    var s' := CopyingState(d, CopyInto(MARKER_ONLY, StepsOf(d)[..k + 1]), k + 1);
    assert Acts(a, s.builds[0].pc, s.fs, s'.builds[0].pc, s'.fs);
  }

  lemma TearingRuns(d: Source, t: Tree, k: nat, t': Tree)
    requires k < |StepsOf(d)| && !Blocked(t, StepsOf(d)[k]) && Torn(t, StepsOf(d)[k], t')
    ensures Steps(CopyingState(d, t, k), 0, CopyingState(d, t', k))
  {
    hide CopySteps, Blocked, Torn;
    var a := Args([d], []);
    var s, s' := CopyingState(d, t, k), CopyingState(d, t', k);
    assert Acts(a, s.builds[0].pc, s.fs, s'.builds[0].pc, s'.fs);
  }

  lemma KillingRuns(d: Source, t: Tree, k: nat)
    ensures Dies(CopyingState(d, t, k), 0, KilledState(d, t))
    ensures Steps(CopyingState(d, t, k), 0, KilledState(d, t))
  {
  }

  lemma {:induction false} CopyingBuildIsRun(d: Source, n: nat)
    requires Stageable(map[], [d]) && n <= |StepsOf(d)|
    requires forall k: nat :: k < n ==> !BlockedAt(d, k)
    ensures Run(map[], CopyingBuild(d, n))
  {
    hide Steps, Stageable, CopySteps, CopyInto, Run, StepsOf, BlockedAt;
    if n == 0 {
      CopyIntoNone(MARKER_ONLY, StepsOf(d));
      KilledBuildIsRun(d);
      MarkingRuns(d);
      RunExtends(map[], KilledBuild(d), 0, CopyingState(d, MARKER_ONLY, 0));
    } else {
      CopyingBuildIsRun(d, n - 1);
      CopyingRuns(d, n - 1);
      RunExtends(map[], CopyingBuild(d, n - 1), 0, CopyingState(d, CopyInto(MARKER_ONLY, StepsOf(d)[..n]), n));
    }
  }

  function CopiedThenKilled(d: Source): seq<Sys> {
    CopyingBuild(d, |StepsOf(d)|) + [KilledState(d, Copied(d))]
  }

  /** When the finished copy is not marked, a kill leaves it behind with its content, for good. */
  lemma UnmarkedCopyIsLeft(d: Source)
    requires Stageable(map[], [d]) && !CopyFails(d) && !Marked(Copied(d))
    ensures var run := CopiedThenKilled(d);
            Run(map[], run) && Left(run[|run| - 1], d.Name(), Copied(d)) && Copied(d) != map[]
  {
    hide Steps, Stageable, Marked, CopySteps, CopyInto, Run;
    var n := |StepsOf(d)|;
    assert StepsOf(d)[..n] == StepsOf(d);
    CopyIsNotEmpty(d);
    CopyingBuildIsRun(d, n);
    KillingRuns(d, Copied(d), n);
    RunExtends(map[], CopyingBuild(d, n), 0, KilledState(d, Copied(d)));
  }

  lemma CopyIsNotEmpty(d: Source)
    ensures Copied(d) != map[]
  {
    CopyIntoAt(MARKER_ONLY, CopySteps(d.entries, []), [MARKER]);
  }

  /** The step at which a source's link takes the marker's place; the copy gets that far. */
  lemma LinkStep(d: Source) returns (k: nat)
    requires OneSitePerPath(SitesIn(d.entries, [])) && !NoMarkerLink(d)
    ensures k < |StepsOf(d)| && StepsOf(d)[k].path == [MARKER] && StepsOf(d)[k].item.Symlink?
    ensures forall j: nat :: j <= k ==> !BlockedAt(d, j)
    ensures forall step :: step in StepsOf(d)[..k] ==> step.path != [MARKER]
  {
    hide CopySteps, CopyInto, SitesIn;
    var i :| 0 <= i < |d.entries| && d.entries[i].name == MARKER && d.entries[i].node.Link?;
    var e := d.entries[i];
    RootSite(d.entries, [], e);
    SitesAreSteps(d.entries, [], Site([], MARKER, e.node));
    assert [] + [MARKER] == [MARKER];
    k := FirstAt(StepsOf(d), CopyStep([MARKER], ItemOf(e.node)));
    SameStep(d, StepsOf(d)[k], CopyStep([MARKER], ItemOf(e.node)));
    forall j: nat | j < k
      ensures !BlockedAt(d, j)
    {
      NothingInTheWay(d, k, j);
    }
  }

  lemma NothingInTheWay(d: Source, k: nat, j: nat)
    requires OneSitePerPath(SitesIn(d.entries, [])) && j < k <= |StepsOf(d)|
    requires forall step :: step in StepsOf(d)[..k] ==> step.path != [MARKER]
    ensures !BlockedAt(d, j)
  {
    hide CopySteps, CopyInto, SitesIn;
    var step, now := StepsOf(d)[j], CopyInto(MARKER_ONLY, StepsOf(d)[..j]);
    assert StepsOf(d)[..k][j] == step;
    CopyIntoAt(MARKER_ONLY, StepsOf(d)[..j], step.path);
    if step.path in now {
      assert CopyStep(step.path, now[step.path]) in StepsOf(d)[..j];
      SameStep(d, step, CopyStep(step.path, now[step.path]));
    }
  }

  /** The states of the build killed after removing the marker and before making the link. */
  function LinkRemovedThenKilled(d: Source, k: nat): seq<Sys>
    requires k <= |StepsOf(d)|
  {
    var t := CopyInto(MARKER_ONLY, StepsOf(d)[..k]) - {[MARKER]};
    CopyingBuild(d, k) + [CopyingState(d, t, k)] + [KilledState(d, t)]
  }

  /**
   * A link in the marker's place unmarks the copy whatever it leads to: the marker is removed to
   * make room for it, and a kill there leaves what has been copied so far, for good.
   */
  lemma LinkInPlaceOfMarkerIsLeft(d: Source) returns (k: nat)
    requires Stageable(map[], [d]) && OneSitePerPath(SitesIn(d.entries, [])) && !NoMarkerLink(d)
    ensures k < |StepsOf(d)| && StepsOf(d)[k].path == [MARKER] && StepsOf(d)[k].item.Symlink?
    ensures var run, t := LinkRemovedThenKilled(d, k), CopyInto(MARKER_ONLY, StepsOf(d)[..k]) - {[MARKER]};
            && |run| == k + 10 && Run(map[], run)
            && run[k + 8] == CopyingState(d, t, k) && Dies(run[k + 8], 0, run[k + 9]) && Left(run[k + 9], d.Name(), t)
            && forall step :: step in StepsOf(d)[..k] ==> step.path in t
  {
    hide Steps, Stageable, CopySteps, CopyInto, Run, NoMarkerLink, SitesIn;
    k := LinkStep(d);
    var whole := CopyInto(MARKER_ONLY, StepsOf(d)[..k]);
    var t := whole - {[MARKER]};
    CopyIntoAt(MARKER_ONLY, StepsOf(d)[..k], [MARKER]);
    CopyingBuildIsRun(d, k);
    assert !BlockedAt(d, k);
    TearingRuns(d, whole, k, t);
    RunExtends(map[], CopyingBuild(d, k), 0, CopyingState(d, t, k));
    KillingRuns(d, t, k);
    RunExtends(map[], CopyingBuild(d, k) + [CopyingState(d, t, k)], 0, KilledState(d, t));
    forall step | step in StepsOf(d)[..k]
      ensures step.path in t
    {
      CopyIntoAt(MARKER_ONLY, StepsOf(d)[..k], step.path);
    }
  }

  /** Also when the link reaches a file, and the finished copy would be marked. */
  lemma FileLinkIsLeft()
    ensures var d := LinkedMarker("mkosi.conf", ToFile(""));
            && Stageable(map[], [d]) && !CopyFails(d) && Marked(Copied(d))
            && var run := LinkRemovedThenKilled(d, 1);
               var t := run[10].fs.profiles[d.Name()];
               Run(map[], run) && Left(run[10], d.Name(), t) && ["mkosi.conf"] in t
  {
    hide Stageable, CopyFails, Copied, Marked, Run, Left, SitesIn, CopyInto;
    var d := LinkedMarker("mkosi.conf", ToFile(""));
    LinkedMarkerIsStaged("mkosi.conf", ToFile(""));
    LinkedMarkerSites("mkosi.conf", ToFile(""));
    assert !NoMarkerLink(d) by {
      assert d.entries[1].name == MARKER && d.entries[1].node.Link?;
    }
    var k := LinkInPlaceOfMarkerIsLeft(d);
    LinkedMarkerSteps(d);
    assert k == 1;
    assert StepsOf(d)[0] in StepsOf(d)[..1];
  }

  lemma LinkedMarkerSteps(d: Source)
    requires d == LinkedMarker("mkosi.conf", ToFile(""))
    ensures |StepsOf(d)| == 2 && StepsOf(d)[0].path == ["mkosi.conf"] && StepsOf(d)[0].item.Plain?
  {
    assert d.entries[1..] == [d.entries[1]] && d.entries[1..][1..] == [];
    assert CopySteps(d.entries[1..][1..], []) == [] && [] + ["mkosi.conf"] == ["mkosi.conf"];
  }

  /** In a run over `d` and sources without such a link, a copy of `d` is cut short and left unmarked. */
  ghost predicate CutUnmarked(d: Source, tree: Profiles, run: seq<Sys>, i: nat, p: nat, t: Tree) {
    && TreeOk(tree) && Run(tree, run) && i + 1 < |run| && OverSources(run, d)
    && p in run[i].builds && CopiesNow(run[i].builds[p], d)
    && Dies(run[i], p, run[i + 1]) && Left(run[i + 1], d.Name(), t)
  }

  ghost predicate OverSources(run: seq<Sys>, d: Source) {
    forall j, q, k :: 0 <= j < |run| && q in run[j].builds && 0 <= k < |run[j].builds[q].args.dirs| ==>
      run[j].builds[q].args.dirs[k] == d || NoMarkerLink(run[j].builds[q].args.dirs[k])
  }

  predicate CopiesNow(b: Build, d: Source) {
    b.pc.Copying? && b.pc.i < |b.args.dirs| && b.args.dirs[b.pc.i] == d
  }

  /**
   * The exact condition on a source: no kill can leave its copy unmarked once the marker has been
   * written if and only if it has no symlink in the marker's place.
   */
  lemma NoMarkerLinkIsExact(d: Source)
    requires Stageable(map[], [d]) && OneSitePerPath(SitesIn(d.entries, []))
    ensures NoMarkerLink(d) <==>
            !exists tree: Profiles, run: seq<Sys>, i: nat, p: nat, t: Tree :: CutUnmarked(d, tree, run, i, p, t)
  {
    if NoMarkerLink(d) {
      forall tree: Profiles, run: seq<Sys>, i: nat, p: nat, t: Tree
        ensures !CutUnmarked(d, tree, run, i, p, t)
      {
        if CutUnmarked(d, tree, run, i, p, t) {
          CopiesAreMarked(d, tree, run, i, p);
        }
      }
    } else {
      var k := LinkInPlaceOfMarkerIsLeft(d);
      OnlyThisSource(d, k);
      assert CutUnmarked(d, map[], LinkRemovedThenKilled(d, k), k + 8, 0,
                         CopyInto(MARKER_ONLY, StepsOf(d)[..k]) - {[MARKER]});
    }
  }

  lemma CopiesAreMarked(d: Source, tree: Profiles, run: seq<Sys>, i: nat, p: nat)
    requires NoMarkerLink(d) && TreeOk(tree) && Run(tree, run) && OverSources(run, d)
    requires i < |run| && p in run[i].builds && CopiesNow(run[i].builds[p], d)
    ensures d.Name() in run[i].fs.profiles && Marked(run[i].fs.profiles[d.Name()])
  {
    hide Run, NoMarkerLink, TreeOk, SafeFs, StagingOk, StagedOver;
    assert CleanRun(tree, run);
    RunKeeps(tree, run, i);
  }

  lemma {:induction false} OnlyThisBuild(d: Source, n: nat)
    requires n <= |StepsOf(d)|
    ensures OverSources(CopyingBuild(d, n), d)
  {
    hide NoMarkerLink, CopySteps, CopyInto;
    if n > 0 {
      OnlyThisBuild(d, n - 1);
    }
  }

  lemma OnlyThisSource(d: Source, k: nat)
    requires k <= |StepsOf(d)|
    ensures OverSources(LinkRemovedThenKilled(d, k), d)
  {
    hide NoMarkerLink, CopySteps, CopyInto, CopyingBuild;
    OnlyThisBuild(d, k);
  }
}
