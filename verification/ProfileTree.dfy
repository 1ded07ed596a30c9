/**
 * The two profile validators of src/commands/build.rs: `reject_escaping_symlinks` and
 * `reject_escaping_includes`, and why an accepted profile can be re-parented.
 */
module ProfileTree {
  import opened Wrappers
  import opened Text

  type Path = seq<string>

  datatype Component = RootDir | CurDir | ParentDir | Normal(name: string)

  /** A link carries its target and what following it finds on the host. */
  datatype Node =
    | Dir(entries: seq<Entry>)
    | File(text: string)
    | Link(target: seq<Component>, followed: Followed)
  datatype Entry = Entry(name: string, node: Node)
  datatype Followed = Nothing | ToFile(text: string) | ToDir(entries: seq<Entry>)

  const CONF_D := "mkosi.conf.d"

  predicate ImageRelative(name: string) {
    name == "mkosi.extra" || name == "mkosi.skeleton"
  }

  // ---------------------------------------------------------------------------------------------
  // escapes_root
  // ---------------------------------------------------------------------------------------------

  function Escapes(depth: nat, target: seq<Component>): bool
    decreases target
  {
    if target == [] then false
    else
      match target[0]
      case RootDir => true
      case CurDir => Escapes(depth, target[1..])
      case ParentDir => depth == 0 || Escapes(depth - 1, target[1..])
      case Normal(_) => Escapes(depth + 1, target[1..])
  }

  method EscapesRoot(relParent: Path, target: seq<Component>) returns (b: bool)
    ensures b == Escapes(|relParent|, target)
  {
    var depth: int := |relParent|;
    assert target[0..] == target;
    for i := 0 to |target|
      invariant depth >= 0 && Escapes(|relParent|, target) == Escapes(depth, target[i..])
    {
      assert target[i..][1..] == target[i + 1..];
      match target[i] {
        case RootDir =>
          return true;
        case CurDir =>
        case ParentDir =>
          depth := depth - 1;
          if depth < 0 {
            return true;
          }
        case Normal(_) =>
          depth := depth + 1;
      }
    }
    return false;
  }

  /** Lexical resolution of `target` from the absolute directory `base`. */
  function Resolve(base: Path, target: seq<Component>): Path
    decreases target
  {
    if target == [] then base
    else
      match target[0]
      case RootDir => Resolve([], target[1..])
      case CurDir => Resolve(base, target[1..])
      case ParentDir => Resolve(if base == [] then [] else base[..|base| - 1], target[1..])
      case Normal(name) => Resolve(base + [name], target[1..])
  }

  /** A target that does not escape means one root-relative path, wherever the root is. */
  lemma {:induction false} StaysInside(root: Path, rel: Path, target: seq<Component>)
    requires !Escapes(|rel|, target)
    ensures Resolve(root + rel, target) == root + Resolve(rel, target)
    decreases target
  {
    if target != [] {
      match target[0] {
        case CurDir =>
          StaysInside(root, rel, target[1..]);
        case ParentDir =>
          assert (root + rel)[..|root + rel| - 1] == root + rel[..|rel| - 1];
          StaysInside(root, rel[..|rel| - 1], target[1..]);
        case Normal(name) =>
          assert root + rel + [name] == root + (rel + [name]);
          StaysInside(root, rel + [name], target[1..]);
      }
    }
  }

  function Names(target: seq<Component>): set<string> {
    if target == [] then {}
    else (if target[0].Normal? then {target[0].name} else {}) + Names(target[1..])
  }

  /** Once the root has been left, nothing but the target's own names is on the path. */
  lemma {:induction false} OnlyOwnNames(base: Path, target: seq<Component>, z: string)
    requires z !in base && z !in Names(target)
    ensures z !in Resolve(base, target)
    decreases target
  {
    if target != [] {
      match target[0]
      case RootDir => OnlyOwnNames([], target[1..], z);
      case CurDir => OnlyOwnNames(base, target[1..], z);
      case ParentDir => OnlyOwnNames(if base == [] then [] else base[..|base| - 1], target[1..], z);
      case Normal(name) => OnlyOwnNames(base + [name], target[1..], z);
    }
  }

  lemma {:induction false} EscapeLosesRoot(z: string, rel: Path, target: seq<Component>)
    requires Escapes(|rel|, target) && z !in Names(target) && z !in rel
    ensures z !in Resolve([z] + rel, target)
    decreases target
  {
    match target[0]
    case RootDir =>
      OnlyOwnNames([], target[1..], z);
    case CurDir =>
      EscapeLosesRoot(z, rel, target[1..]);
    case ParentDir =>
      if rel == [] {
        assert ([z] + rel)[..|[z] + rel| - 1] == [];
        OnlyOwnNames([], target[1..], z);
      } else {
        assert ([z] + rel)[..|[z] + rel| - 1] == [z] + rel[..|rel| - 1];
        EscapeLosesRoot(z, rel[..|rel| - 1], target[1..]);
      }
    case Normal(name) =>
      assert [z] + rel + [name] == [z] + (rel + [name]);
      EscapeLosesRoot(z, rel + [name], target[1..]);
  }

  lemma {:induction false} FreshName(used: set<string>) returns (z: string)
    ensures z !in used
    ensures forall u :: u in used ==> |u| < |z|
    decreases used
  {
    if used == {} {
      z := "z";
    } else {
      var u :| u in used;
      z := FreshName(used - {u});
      if |z| <= |u| {
        z := u + "z";
      }
      forall v | v in used
        ensures |v| < |z|
      {
        assert v == u || v in used - {u};
      }
    }
  }

  ghost predicate MeansUnder(root: Path, rel: Path, target: seq<Component>, q: Path) {
    Resolve(root + rel, target) == root + q
  }

  /** Under every root, `target` seen from `rel` is the root-relative path `q`. */
  ghost predicate Means(rel: Path, target: seq<Component>, q: Path) {
    forall root: Path :: MeansUnder(root, rel, target, q)
  }

  ghost predicate Portable(rel: Path, target: seq<Component>) {
    exists q: Path :: Means(rel, target, q)
  }

  lemma NoMeaningOnceEscaped(rel: Path, target: seq<Component>, q: Path)
    requires Escapes(|rel|, target)
    ensures !Means(rel, target, q)
  {
    var z := FreshName(Names(target) + set n | n in rel);
    EscapeLosesRoot(z, rel, target);
    assert ([z] + q)[0] == z;
    assert !MeansUnder([z], rel, target, q);
  }

  /**
   * `escapes_root` is exact: it accepts a target if and only if re-parenting the profile anywhere
   * leaves the target's root-relative meaning alone.
   */
  lemma EscapesExactlyWhenNotPortable(rel: Path, target: seq<Component>)
    ensures !Escapes(|rel|, target) <==> Portable(rel, target)
  {
    if Escapes(|rel|, target) {
      forall q: Path
        ensures !Means(rel, target, q)
      {
        NoMeaningOnceEscaped(rel, target, q);
      }
    } else {
      forall root: Path
        ensures MeansUnder(root, rel, target, Resolve(rel, target))
      {
        StaysInside(root, rel, target);
      }
      assert Means(rel, target, Resolve(rel, target));
    }
  }

  // ---------------------------------------------------------------------------------------------
  // reject_escaping_symlinks
  // ---------------------------------------------------------------------------------------------

  /** True when the walk finds nothing to reject. */
  function SymlinksOk(entries: seq<Entry>, rel: Path, atExtrasRoot: bool, inDropins: bool): bool
    decreases entries
  {
    if entries == [] then true
    else
      var name, node := entries[0].name, entries[0].node;
      && (if atExtrasRoot && ImageRelative(name) then !node.Link?
          else if node.Link? then !Escapes(|rel|, node.target)
          else if node.Dir? then SymlinksOk(node.entries, rel + [name], inDropins, atExtrasRoot && name == CONF_D)
          else true)
      && SymlinksOk(entries[1..], rel, atExtrasRoot, inDropins)
  }

  datatype Site = Site(parent: Path, name: string, node: Node)

  /** Every entry of a tree, at whatever depth. */
  function SitesIn(entries: seq<Entry>, rel: Path): set<Site>
    decreases entries
  {
    if entries == [] then {}
    else
      var name, node := entries[0].name, entries[0].node;
      {Site(rel, name, node)}
      + (if node.Dir? then SitesIn(node.entries, rel + [name]) else {})
      + SitesIn(entries[1..], rel)
  }

  /** Names are unique in every directory. */
  ghost predicate OneSitePerPath(sites: set<Site>) {
    forall s, t :: s in sites && t in sites && s.parent + [s.name] == t.parent + [t.name] ==> s == t
  }

  /** An extras-dir root, by its path alone: the profile root or a nested dropin directory. */
  predicate AnchorPath(p: Path) {
    p == [] || (|p| >= 2 && p[|p| - 2] == CONF_D && AnchorPath(p[..|p| - 2]))
  }

  predicate ContainerPath(p: Path) {
    p != [] && p[|p| - 1] == CONF_D && AnchorPath(p[..|p| - 1])
  }

  /** Inside an image-relative subtree of an extras-dir root. */
  ghost predicate Exempt(p: Path) {
    exists k :: ExemptAt(p, k)
  }

  ghost predicate ExemptAt(p: Path, k: int) {
    0 <= k < |p| && AnchorPath(p[..k]) && ImageRelative(p[k])
  }

  ghost predicate LinkAllowed(s: Site) {
    s.node.Link? ==>
      Exempt(s.parent) || (!(AnchorPath(s.parent) && ImageRelative(s.name)) && Portable(s.parent, s.node.target))
  }

  lemma ExemptStep(p: Path, name: string)
    ensures Exempt(p + [name]) <==> Exempt(p) || (AnchorPath(p) && ImageRelative(name))
    ensures AnchorPath(p + [name]) == ContainerPath(p)
    ensures ContainerPath(p + [name]) == (AnchorPath(p) && name == CONF_D)
  {
    var q := p + [name];
    assert q[..|p|] == p;
    if p != [] {
      assert q[..|q| - 2] == p[..|p| - 1];
    }
    if k :| ExemptAt(p, k) {
      assert q[..k] == p[..k] && ExemptAt(q, k);
    }
    if k :| ExemptAt(q, k) && k < |p| {
      assert q[..k] == p[..k] && ExemptAt(p, k);
    }
    if AnchorPath(p) && ImageRelative(name) {
      assert ExemptAt(q, |p|);
    }
  }

  lemma {:induction false} SitesBelow(entries: seq<Entry>, rel: Path, s: Site)
    requires s in SitesIn(entries, rel)
    ensures Exempt(rel) ==> Exempt(s.parent)
    decreases entries
  {
    hide Exempt, AnchorPath, ContainerPath;
    var name, node := entries[0].name, entries[0].node;
    if s in SitesIn(entries[1..], rel) {
      SitesBelow(entries[1..], rel, s);
    } else if node.Dir? && s in SitesIn(node.entries, rel + [name]) {
      ExemptStep(rel, name);
      SitesBelow(node.entries, rel + [name], s);
    }
  }

  /**
   * The walk's two flags are right: it accepts a tree if and only if every symlink in it is inside
   * an image-relative subtree of an extras-dir root, or means the same under every root and is not
   * itself such a subtree's root.
   */
  lemma {:induction false} SymlinkWalkExact(entries: seq<Entry>, rel: Path)
    requires !Exempt(rel)
    ensures SymlinksOk(entries, rel, AnchorPath(rel), ContainerPath(rel)) <==>
            forall s :: s in SitesIn(entries, rel) ==> LinkAllowed(s)
    decreases entries
  {
    hide Exempt, AnchorPath, ContainerPath, Escapes, Portable;
    if entries != [] {
      var name, node := entries[0].name, entries[0].node;
      SymlinkWalkExact(entries[1..], rel);
      ExemptStep(rel, name);
      assert Site(rel, name, node) in SitesIn(entries, rel);
      if node.Link? {
        EscapesExactlyWhenNotPortable(rel, node.target);
      } else if node.Dir? {
        if AnchorPath(rel) && ImageRelative(name) {
          forall s | s in SitesIn(node.entries, rel + [name])
            ensures LinkAllowed(s)
          {
            SitesBelow(node.entries, rel + [name], s);
          }
        } else {
          SymlinkWalkExact(node.entries, rel + [name]);
        }
      }
    }
  }

  // ---------------------------------------------------------------------------------------------
  // reject_escaping_includes
  // ---------------------------------------------------------------------------------------------

  function SplitOn(s: string, c: char): (parts: seq<string>)
    decreases |s|
  {
    var k := IndexOf(s, c);
    if k == |s| then [s] else [s[..k]] + SplitOn(s[k + 1..], c)
  }

  /** Empty parts vanish, and so does `.` everywhere but at the start of a relative path. */
  function ComponentsOf(parts: seq<string>, atStart: bool): seq<Component> {
    if parts == [] then []
    else
      (if parts[0] == "" then [] else if parts[0] == "." then (if atStart then [CurDir] else [])
       else if parts[0] == ".." then [ParentDir] else [Normal(parts[0])])
      + ComponentsOf(parts[1..], false)
  }

  /** `Path::components` of a Unix path. */
  function Components(s: string): seq<Component> {
    var rooted := s != "" && s[0] == '/';
    (if rooted then [RootDir] else []) + ComponentsOf(SplitOn(s, '/'), !rooted)
  }

  function TrimAt(s: string): string {
    if s != "" && s[0] == '@' then TrimAt(s[1..]) else s
  }

  /** The value of an `Include=` (or `@Include=`) line. */
  function IncludeValue(line: string): Option<string> {
    var l := TrimAt(TrimStart(line));
    if !("Include" <= l) then None
    else
      var rest := TrimStart(l[7..]);
      if rest != "" && rest[0] == '=' then Some(rest[1..]) else None
  }

  function TrimAll(parts: seq<string>): seq<string> {
    if parts == [] then []
    else (if Trim(parts[0]) == "" then [] else [Trim(parts[0])]) + TrimAll(parts[1..])
  }

  /** The comma-separated targets of every include line. */
  function IncludeTargets(lines: seq<string>): seq<string> {
    if lines == [] then []
    else
      (match IncludeValue(lines[0])
       case None => []
       case Some(value) => TrimAll(SplitOn(value, ',')))
      + IncludeTargets(lines[1..])
  }

  predicate TextOk(text: string, anchor: Path) {
    forall i :: 0 <= i < |IncludeTargets(Lines(text))| ==>
      !Escapes(|anchor|, Components(IncludeTargets(Lines(text))[i]))
  }

  /** The text read under a config file name, if that is a file or a link to one. */
  function TextOf(node: Node): Option<string> {
    match node
    case File(text) => Some(text)
    case Link(_, ToFile(text)) => Some(text)
    case _ => None
  }

  predicate Readable(node: Node, anchor: Path) {
    TextOf(node).Some? && TextOk(TextOf(node).value, anchor)
  }

  predicate MainConfig(name: string) {
    name == "mkosi.conf" || name == "mkosi.local.conf"
  }

  /** `Path::extension` is `conf`. */
  predicate ConfName(name: string) {
    |name| > 5 && name[|name| - 5..] == ".conf"
  }

  /**
   * True when the walk finds nothing to reject. Names are unique in a directory, so looking up the
   * three names the walk asks for is the same as meeting them on the way through the listing.
   */
  function IncludesOk(entries: seq<Entry>, anchor: Path): bool
    decreases entries
  {
    if entries == [] then true
    else
      var name, node := entries[0].name, entries[0].node;
      && (MainConfig(name) && TextOf(node).Some? ==> TextOk(TextOf(node).value, anchor))
      && (name == CONF_D ==>
            match node
            case Dir(sub) => DropinsOk(sub, anchor)
            case Link(_, ToDir(sub)) => DropinsOk(sub, anchor)
            case _ => true)
      && IncludesOk(entries[1..], anchor)
  }

  function DropinsOk(entries: seq<Entry>, anchor: Path): bool
    decreases entries
  {
    if entries == [] then true
    else
      var name, node := entries[0].name, entries[0].node;
      && (if node.Dir? then IncludesOk(node.entries, anchor + [CONF_D, name])
          else ConfName(name) ==> Readable(node, anchor))
      && DropinsOk(entries[1..], anchor)
  }

  ghost predicate TextPortable(text: string, anchor: Path) {
    forall i :: 0 <= i < |IncludeTargets(Lines(text))| ==>
      Portable(anchor, Components(IncludeTargets(Lines(text))[i]))
  }

  /** What mkosi parses, by path alone, and what its includes must be. */
  ghost predicate IncludesAllowed(s: Site) {
    && (AnchorPath(s.parent) && MainConfig(s.name) && TextOf(s.node).Some? ==>
          TextPortable(TextOf(s.node).value, s.parent))
    && (ContainerPath(s.parent) && !s.node.Dir? && ConfName(s.name) ==>
          TextOf(s.node).Some? && TextPortable(TextOf(s.node).value, s.parent[..|s.parent| - 1]))
  }

  ghost predicate NotLinkedDropins(s: Site) {
    !(AnchorPath(s.parent) && s.name == CONF_D && s.node.Link?)
  }

  /** No `mkosi.conf.d` of an extras-dir root is a symlink. */
  ghost predicate NoLinkedDropins(entries: seq<Entry>, rel: Path) {
    forall s :: s in SitesIn(entries, rel) ==> NotLinkedDropins(s)
  }

  lemma TextOkIsPortable(text: string, anchor: Path)
    ensures TextOk(text, anchor) <==> TextPortable(text, anchor)
  {
    var targets := IncludeTargets(Lines(text));
    forall i | 0 <= i < |targets|
      ensures !Escapes(|anchor|, Components(targets[i])) <==> Portable(anchor, Components(targets[i]))
    {
      EscapesExactlyWhenNotPortable(anchor, Components(targets[i]));
    }
  }

  lemma {:induction false} AnchorsAreEven(p: Path)
    ensures AnchorPath(p) ==> |p| % 2 == 0
    ensures ContainerPath(p) ==> |p| % 2 == 1 && !AnchorPath(p)
    decreases |p|
  {
    if |p| >= 2 {
      AnchorsAreEven(p[..|p| - 2]);
    }
    if p != [] {
      AnchorsAreEven(p[..|p| - 1]);
    }
  }

  /** Nothing below a directory that is neither an extras-dir root nor a container is parsed. */
  lemma {:induction false} DeadBelow(entries: seq<Entry>, rel: Path, s: Site)
    requires s in SitesIn(entries, rel) && !AnchorPath(rel) && !ContainerPath(rel)
    ensures !AnchorPath(s.parent) && !ContainerPath(s.parent)
    decreases entries
  {
    hide AnchorPath, ContainerPath, Exempt;
    var name, node := entries[0].name, entries[0].node;
    if s in SitesIn(entries[1..], rel) {
      DeadBelow(entries[1..], rel, s);
    } else if node.Dir? && s in SitesIn(node.entries, rel + [name]) {
      ExemptStep(rel, name);
      DeadBelow(node.entries, rel + [name], s);
    }
  }

  /**
   * The include walk accepts a tree if and only if every `Include=` of every file mkosi parses in
   * it means the same under every root, and the dropin files can be read.
   */
  lemma {:induction false} IncludeWalkExact(entries: seq<Entry>, anchor: Path)
    requires AnchorPath(anchor) && NoLinkedDropins(entries, anchor)
    ensures IncludesOk(entries, anchor) <==> forall s :: s in SitesIn(entries, anchor) ==> IncludesAllowed(s)
    decreases entries
  {
    if entries != [] {
      hide AnchorPath, ContainerPath, Exempt, TextOk, TextPortable, ConfName, IncludesAllowed, NotLinkedDropins;
      var name, node := entries[0].name, entries[0].node;
      IncludeWalkExact(entries[1..], anchor);
      ExemptStep(anchor, name);
      var here := Site(anchor, name, node);
      assert here in SitesIn(entries, anchor);
      AnchorSite(here);
      if name == CONF_D {
        if node.Dir? {
          DropinWalkExact(node.entries, anchor);
          assert anchor + [name] == anchor + [CONF_D];
        }
      } else if node.Dir? {
        AnchorsAreEven(anchor + [name]);
        AnchorsAreEven(anchor);
        forall s | s in SitesIn(node.entries, anchor + [name])
          ensures IncludesAllowed(s)
        {
          DeadBelow(node.entries, anchor + [name], s);
          DeadSite(s);
        }
      }
    }
  }

  lemma {:induction false} DropinWalkExact(entries: seq<Entry>, anchor: Path)
    requires AnchorPath(anchor) && NoLinkedDropins(entries, anchor + [CONF_D])
    ensures DropinsOk(entries, anchor) <==>
            forall s :: s in SitesIn(entries, anchor + [CONF_D]) ==> IncludesAllowed(s)
    decreases entries
  {
    if entries != [] {
      hide AnchorPath, ContainerPath, Exempt, TextOk, TextPortable, ConfName, IncludesAllowed, NotLinkedDropins;
      var rel := anchor + [CONF_D];
      var name, node := entries[0].name, entries[0].node;
      DropinWalkExact(entries[1..], anchor);
      ExemptStep(anchor, CONF_D);
      ExemptStep(rel, name);
      var here := Site(rel, name, node);
      assert here in SitesIn(entries, rel);
      DropinSite(here, anchor);
      if node.Dir? {
        assert rel + [name] == anchor + [CONF_D, name];
        IncludeWalkExact(node.entries, rel + [name]);
      }
    }
  }

  lemma DeadSite(s: Site)
    requires !AnchorPath(s.parent) && !ContainerPath(s.parent)
    ensures IncludesAllowed(s)
  {
  }

  lemma AnchorSite(s: Site)
    requires AnchorPath(s.parent)
    ensures IncludesAllowed(s) <==>
            (MainConfig(s.name) && TextOf(s.node).Some? ==> TextOk(TextOf(s.node).value, s.parent))
    ensures NotLinkedDropins(s) <==> !(s.name == CONF_D && s.node.Link?)
  {
    AnchorsAreEven(s.parent);
    if TextOf(s.node).Some? {
      TextOkIsPortable(TextOf(s.node).value, s.parent);
    }
  }

  lemma DropinSite(s: Site, anchor: Path)
    requires AnchorPath(anchor) && s.parent == anchor + [CONF_D]
    ensures IncludesAllowed(s) <==> (!s.node.Dir? && ConfName(s.name) ==> Readable(s.node, anchor))
  {
    assert s.parent[..|s.parent| - 1] == anchor;
    AnchorsAreEven(s.parent);
    if TextOf(s.node).Some? {
      TextOkIsPortable(TextOf(s.node).value, anchor);
    }
  }

  // ---------------------------------------------------------------------------------------------
  // The two walks together
  // ---------------------------------------------------------------------------------------------

  /** The directories below `rel` that the symlink walk enters as extras-dir roots. */
  function ExemptingDirs(entries: seq<Entry>, rel: Path, atExtrasRoot: bool, inDropins: bool): set<Path>
    decreases entries
  {
    if entries == [] then {}
    else
      var name, node := entries[0].name, entries[0].node;
      (if atExtrasRoot && ImageRelative(name) then {}
       else if node.Dir? then
         (if inDropins then {rel + [name]} else {})
         + ExemptingDirs(node.entries, rel + [name], inDropins, atExtrasRoot && name == CONF_D)
       else {})
      + ExemptingDirs(entries[1..], rel, atExtrasRoot, inDropins)
  }

  /** The anchors below `anchor` that the include walk visits. */
  function VisitedAnchors(entries: seq<Entry>, anchor: Path): set<Path>
    decreases entries
  {
    if entries == [] then {}
    else
      (if entries[0].name == CONF_D then
         match entries[0].node
         case Dir(sub) => DropinAnchors(sub, anchor)
         case Link(_, ToDir(sub)) => DropinAnchors(sub, anchor)
         case _ => {}
       else {})
      + VisitedAnchors(entries[1..], anchor)
  }

  function DropinAnchors(entries: seq<Entry>, anchor: Path): set<Path>
    decreases entries
  {
    if entries == [] then {}
    else
      (if entries[0].node.Dir? then
         {anchor + [CONF_D, entries[0].name]}
         + VisitedAnchors(entries[0].node.entries, anchor + [CONF_D, entries[0].name])
       else {})
      + DropinAnchors(entries[1..], anchor)
  }

  /** The anchors reached through a symlinked `mkosi.conf.d`, which the symlink walk never enters. */
  function LinkedAnchors(entries: seq<Entry>, anchor: Path): set<Path>
    decreases entries
  {
    if entries == [] then {}
    else
      (if entries[0].name == CONF_D then
         match entries[0].node
         case Dir(sub) => LinkedBelow(sub, anchor)
         case Link(_, ToDir(sub)) => DropinAnchors(sub, anchor)
         case _ => {}
       else {})
      + LinkedAnchors(entries[1..], anchor)
  }

  function LinkedBelow(entries: seq<Entry>, anchor: Path): set<Path>
    decreases entries
  {
    if entries == [] then {}
    else
      (if entries[0].node.Dir? then LinkedAnchors(entries[0].node.entries, anchor + [CONF_D, entries[0].name])
       else {})
      + LinkedBelow(entries[1..], anchor)
  }

  lemma {:induction false} NoExemptionBelow(entries: seq<Entry>, rel: Path)
    ensures ExemptingDirs(entries, rel, false, false) == {}
    decreases entries
  {
    if entries != [] {
      NoExemptionBelow(entries[1..], rel);
      if entries[0].node.Dir? {
        NoExemptionBelow(entries[0].node.entries, rel + [entries[0].name]);
      }
    }
  }

  /**
   * The two walks agree: the include walk's anchors are the directories where the symlink walk's
   * exemption applies, plus whatever lies behind a symlinked `mkosi.conf.d`.
   */
  lemma {:induction false} WalksAgreeOnAnchors(entries: seq<Entry>, anchor: Path)
    ensures VisitedAnchors(entries, anchor)
         == ExemptingDirs(entries, anchor, true, false) + LinkedAnchors(entries, anchor)
    decreases entries
  {
    if entries != [] {
      var name, node := entries[0].name, entries[0].node;
      WalksAgreeOnAnchors(entries[1..], anchor);
      if node.Dir? {
        if name == CONF_D {
          WalksAgreeOnDropins(node.entries, anchor);
        } else if !ImageRelative(name) {
          NoExemptionBelow(node.entries, anchor + [name]);
        }
      }
    }
  }

  lemma {:induction false} WalksAgreeOnDropins(entries: seq<Entry>, anchor: Path)
    ensures DropinAnchors(entries, anchor)
         == ExemptingDirs(entries, anchor + [CONF_D], false, true) + LinkedBelow(entries, anchor)
    decreases entries
  {
    if entries != [] {
      var name, node := entries[0].name, entries[0].node;
      WalksAgreeOnDropins(entries[1..], anchor);
      if node.Dir? {
        assert anchor + [CONF_D] + [name] == anchor + [CONF_D, name];
        WalksAgreeOnAnchors(node.entries, anchor + [CONF_D, name]);
      }
    }
  }

  /** Every visited anchor is an extras-dir root by its path. */
  lemma {:induction false} ExemptingDirsAreAnchors(entries: seq<Entry>, rel: Path, d: Path)
    requires d in ExemptingDirs(entries, rel, AnchorPath(rel), ContainerPath(rel))
    ensures AnchorPath(d)
    decreases entries
  {
    hide AnchorPath, ContainerPath, Exempt;
    var name, node := entries[0].name, entries[0].node;
    ExemptStep(rel, name);
    if d in ExemptingDirs(entries[1..], rel, AnchorPath(rel), ContainerPath(rel)) {
      ExemptingDirsAreAnchors(entries[1..], rel, d);
    } else if !(ContainerPath(rel) && d == rel + [name]) {
      ExemptingDirsAreAnchors(node.entries, rel + [name], d);
    }
  }

  lemma {:induction false} NoLinkedAnchors(entries: seq<Entry>, anchor: Path)
    requires AnchorPath(anchor) && NoLinkedDropins(entries, anchor)
    ensures LinkedAnchors(entries, anchor) == {}
    decreases entries
  {
    if entries != [] {
      hide AnchorPath, ContainerPath, Exempt, NotLinkedDropins;
      var name, node := entries[0].name, entries[0].node;
      NoLinkedAnchors(entries[1..], anchor);
      var here := Site(anchor, name, node);
      assert here in SitesIn(entries, anchor);
      AnchorSite(here);
      if name == CONF_D && node.Dir? {
        NoLinkedBelow(node.entries, anchor);
      }
    }
  }

  lemma {:induction false} NoLinkedBelow(entries: seq<Entry>, anchor: Path)
    requires AnchorPath(anchor) && NoLinkedDropins(entries, anchor + [CONF_D])
    ensures LinkedBelow(entries, anchor) == {}
    decreases entries
  {
    if entries != [] {
      hide AnchorPath, ContainerPath, Exempt, NotLinkedDropins;
      var name, node := entries[0].name, entries[0].node;
      NoLinkedBelow(entries[1..], anchor);
      if node.Dir? {
        ExemptStep(anchor, CONF_D);
        ExemptStep(anchor + [CONF_D], name);
        assert anchor + [CONF_D] + [name] == anchor + [CONF_D, name];
        NoLinkedAnchors(node.entries, anchor + [CONF_D, name]);
      }
    }
  }

  /**
   * What acceptance by both validators gives: every symlink outside an exempt subtree, and every
   * include mkosi will parse, names the same root-relative path wherever staging puts the profile;
   * and the exemption applies at exactly the anchors the include walk visits.
   */
  lemma AcceptedTreesCanBeMoved(entries: seq<Entry>)
    requires NoLinkedDropins(entries, [])
    ensures SymlinksOk(entries, [], true, false) && IncludesOk(entries, []) <==>
            forall s :: s in SitesIn(entries, []) ==> LinkAllowed(s) && IncludesAllowed(s)
    ensures VisitedAnchors(entries, []) == ExemptingDirs(entries, [], true, false)
    ensures forall d :: d in VisitedAnchors(entries, []) ==> AnchorPath(d)
  {
    assert !Exempt([]) && AnchorPath([]) && !ContainerPath([]);
    hide Exempt, AnchorPath, ContainerPath, LinkAllowed, IncludesAllowed, NotLinkedDropins;
    SymlinkWalkExact(entries, []);
    IncludeWalkExact(entries, []);
    WalksAgreeOnAnchors(entries, []);
    NoLinkedAnchors(entries, []);
    forall d | d in ExemptingDirs(entries, [], true, false)
      ensures AnchorPath(d)
    {
      ExemptingDirsAreAnchors(entries, [], d);
    }
  }

  /** Every directory on the way to an exempting directory is a real one. */
  lemma {:induction false} ExemptingDirsAreReal(entries: seq<Entry>, rel: Path, atExtrasRoot: bool, inDropins: bool,
                                                d: Path, m: nat) returns (s: Site)
    requires d in ExemptingDirs(entries, rel, atExtrasRoot, inDropins)
    ensures |rel| < |d| && d[..|rel|] == rel
    ensures |rel| < m <= |d| ==> s in SitesIn(entries, rel) && s.node.Dir? && s.parent + [s.name] == d[..m]
    decreases entries
  {
    var name, node := entries[0].name, entries[0].node;
    if d in ExemptingDirs(entries[1..], rel, atExtrasRoot, inDropins) {
      s := ExemptingDirsAreReal(entries[1..], rel, atExtrasRoot, inDropins, d, m);
    } else {
      s := Site(rel, name, node);
      if !(inDropins && d == rel + [name]) {
        var below := ExemptingDirsAreReal(node.entries, rel + [name], inDropins, atExtrasRoot && name == CONF_D, d, m);
        assert d[..|rel|] == d[..|rel| + 1][..|rel|] == rel;
        if m > |rel| + 1 {
          s := below;
        }
      }
    }
  }

  /** On the way to an anchor behind a symlinked `mkosi.conf.d` there is that link. */
  lemma {:induction false} LinkedAnchorsAreLinked(entries: seq<Entry>, anchor: Path, d: Path) returns (s: Site)
    requires d in LinkedAnchors(entries, anchor)
    ensures s in SitesIn(entries, anchor) && s.node.Link? && |anchor| <= |s.parent| < |d| - 1
    ensures s.parent + [s.name] == d[..|s.parent| + 1]
    decreases entries
  {
    var name, node := entries[0].name, entries[0].node;
    if d in LinkedAnchors(entries[1..], anchor) {
      s := LinkedAnchorsAreLinked(entries[1..], anchor, d);
    } else if node.Dir? {
      s := LinkedBelowAreLinked(node.entries, anchor, d);
    } else {
      s := Site(anchor, name, node);
      DropinAnchorsExtend(node.followed.entries, anchor, d);
    }
  }

  lemma {:induction false} LinkedBelowAreLinked(entries: seq<Entry>, anchor: Path, d: Path) returns (s: Site)
    requires d in LinkedBelow(entries, anchor)
    ensures s in SitesIn(entries, anchor + [CONF_D]) && s.node.Link? && |anchor| <= |s.parent| < |d| - 1
    ensures s.parent + [s.name] == d[..|s.parent| + 1]
    decreases entries
  {
    if d in LinkedBelow(entries[1..], anchor) {
      s := LinkedBelowAreLinked(entries[1..], anchor, d);
    } else {
      var name := entries[0].name;
      assert anchor + [CONF_D] + [name] == anchor + [CONF_D, name];
      s := LinkedAnchorsAreLinked(entries[0].node.entries, anchor + [CONF_D, name], d);
    }
  }

  lemma {:induction false} DropinAnchorsExtend(entries: seq<Entry>, anchor: Path, d: Path)
    requires d in DropinAnchors(entries, anchor)
    ensures |d| >= |anchor| + 2 && d[..|anchor| + 1] == anchor + [CONF_D]
    decreases entries
  {
    var name, node := entries[0].name, entries[0].node;
    if d in DropinAnchors(entries[1..], anchor) {
      DropinAnchorsExtend(entries[1..], anchor, d);
    } else if d != anchor + [CONF_D, name] {
      VisitedAnchorsExtend(node.entries, anchor + [CONF_D, name], d);
      assert d[..|anchor| + 1] == d[..|anchor| + 2][..|anchor| + 1];
    }
  }

  lemma {:induction false} VisitedAnchorsExtend(entries: seq<Entry>, anchor: Path, d: Path)
    requires d in VisitedAnchors(entries, anchor)
    ensures |d| >= |anchor| + 2 && d[..|anchor|] == anchor
    decreases entries
  {
    if d in VisitedAnchors(entries[1..], anchor) {
      VisitedAnchorsExtend(entries[1..], anchor, d);
    } else {
      match entries[0].node {
        case Dir(sub) => DropinAnchorsExtend(sub, anchor, d);
        case Link(_, ToDir(sub)) => DropinAnchorsExtend(sub, anchor, d);
      }
      assert d[..|anchor|] == d[..|anchor| + 1][..|anchor|];
    }
  }

  /** A `mkosi.conf.d` of an extras-dir root that links to a directory with a subdirectory. */
  predicate LinksToDropins(s: Site) {
    && AnchorPath(s.parent) && s.name == CONF_D
    && s.node.Link? && s.node.followed.ToDir? && HasDir(s.node.followed.entries)
  }

  predicate HasDir(entries: seq<Entry>) {
    exists i :: 0 <= i < |entries| && entries[i].node.Dir?
  }

  ghost predicate HasLinkedDropins(entries: seq<Entry>, rel: Path) {
    exists s :: s in SitesIn(entries, rel) && LinksToDropins(s)
  }

  lemma LinkedDropinsStep(entries: seq<Entry>, rel: Path)
    requires entries != []
    ensures var name, node := entries[0].name, entries[0].node;
            HasLinkedDropins(entries, rel) <==>
            || LinksToDropins(Site(rel, name, node))
            || (node.Dir? && HasLinkedDropins(node.entries, rel + [name]))
            || HasLinkedDropins(entries[1..], rel)
  {
    hide LinksToDropins;
    var name, node := entries[0].name, entries[0].node;
    assert Site(rel, name, node) in SitesIn(entries, rel);
  }

  lemma NoDropinsBelow(entries: seq<Entry>, rel: Path)
    requires !AnchorPath(rel) && !ContainerPath(rel)
    ensures !HasLinkedDropins(entries, rel)
  {
    hide AnchorPath, ContainerPath;
    forall s | s in SitesIn(entries, rel)
      ensures !LinksToDropins(s)
    {
      DeadBelow(entries, rel, s);
    }
  }

  lemma {:induction false} DropinAnchorsExist(entries: seq<Entry>, anchor: Path)
    ensures DropinAnchors(entries, anchor) != {} <==> HasDir(entries)
    decreases entries
  {
    if entries != [] {
      DropinAnchorsExist(entries[1..], anchor);
      if entries[0].node.Dir? {
        assert anchor + [CONF_D, entries[0].name] in DropinAnchors(entries, anchor);
      } else if HasDir(entries) {
        var i :| 0 <= i < |entries| && entries[i].node.Dir?;
        assert entries[1..][i - 1] == entries[i];
      }
      if HasDir(entries[1..]) {
        var i :| 0 <= i < |entries[1..]| && entries[1..][i].node.Dir?;
        assert entries[i + 1].node.Dir?;
      }
    }
  }

  lemma {:induction false} LinkedAnchorsExist(entries: seq<Entry>, anchor: Path)
    requires AnchorPath(anchor)
    ensures LinkedAnchors(entries, anchor) != {} <==> HasLinkedDropins(entries, anchor)
    decreases entries
  {
    if entries != [] {
      hide AnchorPath, ContainerPath, Exempt, HasLinkedDropins, HasDir, DropinAnchors;
      var name, node := entries[0].name, entries[0].node;
      LinkedAnchorsExist(entries[1..], anchor);
      LinkedDropinsStep(entries, anchor);
      ExemptStep(anchor, name);
      AnchorsAreEven(anchor);
      AnchorsAreEven(anchor + [name]);
      match node {
        case Dir(sub) =>
          if name == CONF_D {
            LinkedBelowExist(sub, anchor);
            assert anchor + [name] == anchor + [CONF_D];
          } else {
            NoDropinsBelow(sub, anchor + [name]);
          }
        case Link(_, ToDir(sub)) =>
          DropinAnchorsExist(sub, anchor);
        case _ =>
      }
    } else {
      assert !HasLinkedDropins([], anchor);
    }
  }

  lemma {:induction false} LinkedBelowExist(entries: seq<Entry>, anchor: Path)
    requires AnchorPath(anchor)
    ensures LinkedBelow(entries, anchor) != {} <==> HasLinkedDropins(entries, anchor + [CONF_D])
    decreases entries
  {
    if entries != [] {
      hide AnchorPath, ContainerPath, Exempt, HasLinkedDropins;
      var rel, name, node := anchor + [CONF_D], entries[0].name, entries[0].node;
      LinkedBelowExist(entries[1..], anchor);
      LinkedDropinsStep(entries, rel);
      ExemptStep(anchor, CONF_D);
      ExemptStep(rel, name);
      AnchorsAreEven(rel);
      if node.Dir? {
        assert rel + [name] == anchor + [CONF_D, name];
        LinkedAnchorsExist(node.entries, rel + [name]);
      }
    } else {
      assert !HasLinkedDropins([], anchor + [CONF_D]);
    }
  }

  /**
   * Exactly when the two walks agree on their anchors, symlinks or not: no `mkosi.conf.d` of an
   * extras-dir root is a link to a directory that has a subdirectory.
   */
  lemma AnchorsAgreeExactly(entries: seq<Entry>)
    requires OneSitePerPath(SitesIn(entries, []))
    ensures VisitedAnchors(entries, []) == ExemptingDirs(entries, [], true, false) <==>
            forall s :: s in SitesIn(entries, []) ==> !LinksToDropins(s)
  {
    hide SitesIn, VisitedAnchors, ExemptingDirs, LinkedAnchors, LinksToDropins;
    WalksAgreeOnAnchors(entries, []);
    LinkedAnchorsExist(entries, []);
    if d :| d in LinkedAnchors(entries, []) {
      var s := LinkedAnchorsAreLinked(entries, [], d);
      if d in ExemptingDirs(entries, [], true, false) {
        var t := ExemptingDirsAreReal(entries, [], true, false, d, |s.parent| + 1);
        assert false;
      }
    }
  }

  /** A tree whose `mkosi.conf.d` links to its own `shared`, with one directory there. */
  function SharedDropins(name: string): seq<Entry> {
    var sub := [Entry(name, Dir([]))];
    [Entry("mkosi.conf", File("")),
     Entry("shared", Dir(sub)),
     Entry(CONF_D, Link([Normal("shared")], ToDir(sub)))]
  }

  lemma SharedDropinsAnchors(name: string)
    ensures LinkedAnchors(SharedDropins(name), []) == {[CONF_D, name]}
    ensures VisitedAnchors(SharedDropins(name), []) == {[CONF_D, name]}
    ensures ExemptingDirs(SharedDropins(name), [], true, false) == {}
  {
    var tree, sub := SharedDropins(name), [Entry(name, Dir([]))];
    assert tree[1..][1..] == [tree[2]] && tree[1..][0] == tree[1] && [tree[2]][1..] == [];
    assert sub[1..] == [] && [] + [CONF_D, name] == [CONF_D, name];
    assert DropinAnchors(sub, []) == {[CONF_D, name]};
    assert LinkedAnchors([tree[2]], []) == VisitedAnchors([tree[2]], []) == DropinAnchors(sub, []);
    NoExemptionBelow(sub, [] + ["shared"]);
    assert ExemptingDirs([tree[2]], [], true, false) == {};
  }

  /** Both walks accept it, and disagree: the include walk visits a directory the other never enters. */
  lemma LinkedDropinsDisagree(name: string)
    ensures SymlinksOk(SharedDropins(name), [], true, false) && IncludesOk(SharedDropins(name), [])
    ensures VisitedAnchors(SharedDropins(name), []) != ExemptingDirs(SharedDropins(name), [], true, false)
  {
    hide VisitedAnchors, ExemptingDirs;
    SharedDropinsAnchors(name);
    var tree, sub := SharedDropins(name), [Entry(name, Dir([]))];
    assert [CONF_D, name] in VisitedAnchors(tree, []);
    assert tree[1..][1..] == [tree[2]] && tree[1..][0] == tree[1] && [tree[2]][1..] == [] && sub[1..] == [];
    assert !Escapes(0, [Normal("shared")]);
    assert SymlinksOk(sub, ["shared"], false, false) && SymlinksOk([tree[2]], [], true, false);
    assert [] + ["shared"] == ["shared"];
    assert DropinsOk(sub[1..], []);
    assert DropinsOk(sub, []);
    assert tree[2].node == Link([Normal("shared")], ToDir(sub)) && IncludesOk([tree[2]][1..], []);
    assert IncludesOk([tree[2]], []);
    assert tree[1].name[0] == 's' && CONF_D[0] == 'm' && IncludesOk(tree[1..], []);
    assert TextOk("", []);
  }
}
