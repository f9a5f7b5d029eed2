/**
 Module discovery for the shared UI: which modules an export name leads to. A module is the
 record of what its syntax tree says about imports and exports.
 */
module ModuleGraph {
  import opened CodeUnits

  datatype Result<+T> = Ok(value: T) | Throw

  datatype Selection = Execute | SideEffect | All | Named(names: seq<Text>)

  datatype Target = Target(file: Text, selection: Selection)

  datatype Import = Import(specifier: Text, selection: Selection)

  /** An export declaration with a module specifier, in source order, type-only parts left out. */
  datatype Link =
    | Star(specifier: Text)
    | Namespace(specifier: Text, name: Text)
    | Names(specifier: Text, entries: seq<Entry>)

  datatype Entry = Entry(exported: Text, imported: Text)

  /** `export =`, `export default identifier`, `export default expression` */
  datatype Assignment = Equals | Identifier(local: Text) | Expression

  /**
   `declared` holds the names of `exportedNames` over all statements, `bindings` what
   `localRuntimeBinding` finds, `values` what `hasLocalRuntimeBinding` accepts.
   */
  datatype Module = Module(
    imports: seq<Import>,
    declared: set<Text>,
    links: seq<Link>,
    localExports: seq<Entry>,
    bindings: map<Text, Import>,
    values: set<Text>,
    assignments: seq<Assignment>)

  /**
   `resolved` maps specifier and importer to a module path; reading a file that is not in
   `modules` throws. `ui` are the files inside the shared UI source, `code` the code files,
   `workspace` the other files that are followed.
   */
  datatype Graph = Graph(
    modules: map<Text, Module>,
    resolved: map<(Text, Text), Text>,
    ui: set<Text>,
    workspace: set<Text>,
    code: set<Text>)

  const DEFAULT := Ascii("default")
  const LUCIDE := Ascii("lucide-solid")

  // ----- keys

  function Joined(names: seq<Text>): Text {
    if names == [] then [] else if |names| == 1 then names[0] else names[0] + [0x2C] + Joined(names[1..])
  }

  function SelectionKey(s: Selection): Text {
    match s
    case Execute => Ascii("execute")
    case SideEffect => Ascii("side-effect")
    case All => Ascii("all")
    case Named(names) => Joined(names)
  }

  /** A path holds no NUL, so the file and the selection part of a key can be told apart. */
  function KeyOf(t: Target): (Text, Text) {
    (t.file, SelectionKey(t.selection))
  }

  function KeySet(targets: seq<Target>): (keys: set<(Text, Text)>)
    ensures forall k :: k in keys <==> exists t :: t in targets && KeyOf(t) == k
  {
    set t | t in targets :: KeyOf(t)
  }

  /** Writing one key into a `Map`: an old key keeps its place and takes the new value. */
  function Upsert(unique: seq<Target>, target: Target): seq<Target> {
    if unique == [] then [target]
    else if KeyOf(unique[0]) == KeyOf(target) then [target] + unique[1..]
    else [unique[0]] + Upsert(unique[1..], target)
  }

  function Deduplicated(targets: seq<Target>): seq<Target> {
    if targets == [] then [] else Upsert(Deduplicated(targets[..|targets| - 1]), targets[|targets| - 1])
  }

  lemma KeySetCons(target: Target, targets: seq<Target>)
    ensures KeySet([target] + targets) == {KeyOf(target)} + KeySet(targets)
  {
    hide KeyOf;
    assert forall t :: t in [target] + targets <==> t == target || t in targets;
  }

  lemma {:induction false} UpsertKeys(unique: seq<Target>, target: Target)
    ensures KeySet(Upsert(unique, target)) == KeySet(unique) + {KeyOf(target)}
    ensures forall t | t in Upsert(unique, target) :: t in unique || t == target
  {
    hide KeyOf, KeySet;
    if unique == [] {
      KeySetCons(target, []);
      assert [target] + [] == [target];
    } else {
      UpsertKeys(unique[1..], target);
      assert unique == [unique[0]] + unique[1..];
      KeySetCons(unique[0], unique[1..]);
      KeySetCons(target, unique[1..]);
      KeySetCons(unique[0], Upsert(unique[1..], target));
    }
  }

  /** Deduplication keeps exactly the keys, and invents no target. */
  lemma {:induction false} DeduplicatedKeys(targets: seq<Target>)
    ensures KeySet(Deduplicated(targets)) == KeySet(targets)
    ensures forall t | t in Deduplicated(targets) :: t in targets
  {
    hide KeyOf;
    if targets != [] {
      var front, last := targets[..|targets| - 1], targets[|targets| - 1];
      DeduplicatedKeys(front);
      UpsertKeys(Deduplicated(front), last);
      assert targets == front + [last];
    }
  }

  // ----- the targets a module has of its own

  function Resolve(g: Graph, file: Text, specifier: Text): Option<Text> {
    if (specifier, file) in g.resolved then Some(g.resolved[(specifier, file)]) else None
  }

  /** A re-export of one name from `specifier`; an unresolved one throws inside the UI source. */
  function Reexport(g: Graph, file: Text, specifier: Text, selection: Selection, strict: bool): Result<seq<Target>> {
    if specifier == LUCIDE then Ok([Target(file, Execute)])
    else match Resolve(g, file, specifier)
      case Some(target) => Ok([Target(target, selection)])
      case None => if strict && file in g.ui then Throw else Ok([])
  }

  function Append(a: Result<seq<Target>>, b: Result<seq<Target>>): Result<seq<Target>> {
    if a.Throw? || b.Throw? then Throw else Ok(a.value + b.value)
  }

  function EntryTargets(g: Graph, file: Text, name: Text, specifier: Text, entries: seq<Entry>): Result<seq<Target>> {
    if entries == [] then Ok([])
    else Append(
           if entries[0].exported == name then Reexport(g, file, specifier, Named([entries[0].imported]), true) else Ok([]),
           EntryTargets(g, file, name, specifier, entries[1..]))
  }

  /** What a link adds by itself: nothing for a star that leads on to another module. An empty specifier is skipped. */
  function LinkTargets(g: Graph, file: Text, name: Text, link: Link): Result<seq<Target>> {
    if link.specifier == [] then Ok([])
    else match link
    case Star(specifier) =>
      if name == DEFAULT then Ok([])
      else if specifier == LUCIDE then Ok([Target(file, Execute)])
      else if Resolve(g, file, specifier).None? && file in g.ui then Throw
      else Ok([])
    case Namespace(specifier, exported) =>
      if exported == name then Reexport(g, file, specifier, All, false) else Ok([])
    case Names(specifier, entries) => EntryTargets(g, file, name, specifier, entries)
  }

  /** The module a star link leads on to when `name` is looked up. */
  function StarOf(g: Graph, file: Text, name: Text, link: Link): Option<Text> {
    if link.Star? && link.specifier != [] && name != DEFAULT && link.specifier != LUCIDE then Resolve(g, file, link.specifier) else None
  }

  function LocalTargets(g: Graph, file: Text, name: Text, module_: Module, entries: seq<Entry>): Result<seq<Target>> {
    if entries == [] then Ok([])
    else
      var local := entries[0].imported;
      Append(
        if entries[0].exported != name then Ok([])
        else if local in module_.bindings then
          match Resolve(g, file, module_.bindings[local].specifier)
          case Some(target) => Ok([Target(target, module_.bindings[local].selection)])
          case None => if file in g.ui then Throw else Ok([])
        else if local in module_.values then Ok([Target(file, Execute)])
        else Ok([]),
        LocalTargets(g, file, name, module_, entries[1..]))
  }

  function DefaultTargets(g: Graph, file: Text, module_: Module, assignments: seq<Assignment>): seq<Target> {
    if assignments == [] then []
    else
      (match assignments[0]
       case Identifier(local) =>
         if local in module_.bindings then
           match Resolve(g, file, module_.bindings[local].specifier)
           case Some(target) => [Target(target, module_.bindings[local].selection)]
           case None => []
         else [Target(file, Execute)]
       case _ => [Target(file, Execute)])
      + DefaultTargets(g, file, module_, assignments[1..])
  }

  function OwnLinks(g: Graph, file: Text, name: Text, links: seq<Link>): Result<seq<Target>> {
    if links == [] then Ok([])
    else Append(LinkTargets(g, file, name, links[0]), OwnLinks(g, file, name, links[1..]))
  }

  function DeclaredTargets(file: Text, name: Text, module_: Module): seq<Target> {
    if name in module_.declared then [Target(file, Execute)] else []
  }

  /** Local export lists, and the default assignments when `default` is looked up. */
  function TailTargets(g: Graph, file: Text, name: Text, module_: Module): Result<seq<Target>> {
    Append(
      LocalTargets(g, file, name, module_, module_.localExports),
      Ok(if name == DEFAULT then DefaultTargets(g, file, module_, module_.assignments) else []))
  }

  /** All targets of `name` that come from this module itself; Throw if looking at it throws. */
  function Own(g: Graph, file: Text, name: Text): Result<seq<Target>> {
    if file !in g.modules then Throw
    else
      var m := g.modules[file];
      Append(Ok(DeclaredTargets(file, name, m)), Append(OwnLinks(g, file, name, m.links), TailTargets(g, file, name, m)))
  }

  // ----- `resolveExportTargets`, with its path-based chain

  /** The modules that are not yet on the chain for this name. */
  function OffChain(g: Graph, name: Text, chain: set<(Text, Text)>): set<Text> {
    set f | f in g.modules && (f, name) !in chain
  }

  lemma ChainGrows(g: Graph, file: Text, name: Text, chain: set<(Text, Text)>)
    requires file in g.modules && (file, name) !in chain
    ensures |OffChain(g, name, chain + {(file, name)})| < |OffChain(g, name, chain)|
  {
    var before, after := OffChain(g, name, chain), OffChain(g, name, chain + {(file, name)});
    assert after == before - {file};
  }

  function ResolveExportTargets(g: Graph, file: Text, name: Text, chain: set<(Text, Text)>): Result<seq<Target>>
    decreases |OffChain(g, name, chain)|, 0
  {
    if (file, name) in chain then Ok([])
    else if file !in g.modules then Throw
    else
      var m := g.modules[file];
      ChainGrows(g, file, name, chain);
      var links := FollowLinks(g, file, name, chain + {(file, name)}, m.links);
      var all := Append(Ok(DeclaredTargets(file, name, m)), Append(links, TailTargets(g, file, name, m)));
      if all.Throw? then Throw else Ok(Deduplicated(all.value))
  }

  function FollowLinks(g: Graph, file: Text, name: Text, chain: set<(Text, Text)>, links: seq<Link>): Result<seq<Target>>
    decreases |OffChain(g, name, chain)|, 1 + |links|
  {
    if links == [] then Ok([])
    else
      var next := StarOf(g, file, name, links[0]);
      var own := LinkTargets(g, file, name, links[0]);
      Append(
        if next.Some? then ResolveExportTargets(g, next.value, name, chain) else own,
        FollowLinks(g, file, name, chain, links[1..]))
  }

  // ----- star reachability

  ghost predicate StarEdge(g: Graph, name: Text, from: Text, onto: Text) {
    from in g.modules && exists link :: link in g.modules[from].links && StarOf(g, from, name, link) == Some(onto)
  }

  ghost predicate IsStarPath(g: Graph, name: Text, path: seq<Text>) {
    path != [] && forall i | 0 <= i < |path| - 1 :: StarEdge(g, name, path[i], path[i + 1])
  }

  /** `last` is reached from `first` through `export *`, for a lookup of `name`. */
  ghost predicate StarReaches(g: Graph, name: Text, first: Text, last: Text) {
    exists path :: IsStarPath(g, name, path) && path[0] == first && path[|path| - 1] == last
  }

  ghost predicate IsSimple(path: seq<Text>) {
    forall i, j | 0 <= i < j < |path| :: path[i] != path[j]
  }

  /** Loops can be cut out of a path. */
  lemma {:induction false} SimplePath(g: Graph, name: Text, path: seq<Text>) returns (simple: seq<Text>)
    requires IsStarPath(g, name, path)
    ensures IsStarPath(g, name, simple) && IsSimple(simple)
    ensures simple[0] == path[0] && simple[|simple| - 1] == path[|path| - 1]
    decreases |path|
  {
    hide StarEdge;
    if IsSimple(path) {
      simple := path;
    } else {
      var i, j :| 0 <= i < j < |path| && path[i] == path[j];
      var cut := path[..i] + path[j..];
      forall k | 0 <= k < |cut| - 1
        ensures StarEdge(g, name, cut[k], cut[k + 1])
      {
        if k < i - 1 {
          assert cut[k] == path[k] && cut[k + 1] == path[k + 1];
        } else if k == i - 1 {
          assert cut[k] == path[k] && cut[k + 1] == path[j] == path[k + 1];
        } else {
          assert cut[k] == path[k - i + j] && cut[k + 1] == path[k - i + j + 1];
        }
      }
      simple := SimplePath(g, name, cut);
    }
  }

  /** A look-up of `default` follows no star. */
  lemma DefaultStays(g: Graph, first: Text, last: Text)
    requires StarReaches(g, DEFAULT, first, last)
    ensures first == last
  {
    hide Ascii;
    var path :| IsStarPath(g, DEFAULT, path) && path[0] == first && path[|path| - 1] == last;
    assert |path| > 1 ==> StarEdge(g, DEFAULT, path[0], path[1]);
  }

  // ----- everything the lookup returns is a target of a reachable module, and it throws only where one throws

  /** `t` is one of the targets that `last` itself has for the name. */
  ghost predicate IsOwnTarget(g: Graph, name: Text, last: Text, t: Target) {
    Own(g, last, name).Ok? && t in Own(g, last, name).value
  }

  lemma OwnParts(g: Graph, file: Text, name: Text)
    requires file in g.modules
    ensures var m := g.modules[file];
            var own := Own(g, file, name);
            && (own.Ok? <==> OwnLinks(g, file, name, m.links).Ok? && TailTargets(g, file, name, m).Ok?)
            && (own.Ok? ==> own.value == DeclaredTargets(file, name, m)
                                         + (OwnLinks(g, file, name, m.links).value + TailTargets(g, file, name, m).value))
  {
    hide OwnLinks, TailTargets, DeclaredTargets;
  }

  lemma ReachesSelf(g: Graph, name: Text, file: Text)
    ensures StarReaches(g, name, file, file)
  {
    assert IsStarPath(g, name, [file]);
  }

  lemma ReachesOn(g: Graph, name: Text, file: Text, next: Text, last: Text)
    requires StarEdge(g, name, file, next) && StarReaches(g, name, next, last)
    ensures StarReaches(g, name, file, last)
  {
    hide StarEdge;
    var path :| IsStarPath(g, name, path) && path[0] == next && path[|path| - 1] == last;
    var longer := [file] + path;
    forall i | 0 <= i < |longer| - 1
      ensures StarEdge(g, name, longer[i], longer[i + 1])
    {
      if i > 0 {
        assert longer[i] == path[i - 1] && longer[i + 1] == path[i];
      }
    }
    assert IsStarPath(g, name, longer);
  }

  /** The links from `k` on, followed: each target is one of the module itself or of a star successor's look-up. */
  lemma {:induction false} FollowedLink(g: Graph, file: Text, name: Text, chain: set<(Text, Text)>, links: seq<Link>, t: Target)
    returns (link: Link)
    requires FollowLinks(g, file, name, chain, links).Ok? && t in FollowLinks(g, file, name, chain, links).value
    ensures link in links
    ensures var own, next := LinkTargets(g, file, name, link), StarOf(g, file, name, link);
            || (own.Ok? && t in own.value)
            || (next.Some? && ResolveExportTargets(g, next.value, name, chain).Ok?
                && t in ResolveExportTargets(g, next.value, name, chain).value)
    decreases links
  {
    hide ResolveExportTargets, LinkTargets, StarOf;
    var rest := FollowLinks(g, file, name, chain, links[1..]);
    if t in rest.value {
      link := FollowedLink(g, file, name, chain, links[1..], t);
    } else {
      link := links[0];
    }
  }

  lemma {:induction false} OwnLinkIn(g: Graph, file: Text, name: Text, links: seq<Link>, link: Link)
    requires link in links
    ensures LinkTargets(g, file, name, link).Throw? ==> OwnLinks(g, file, name, links).Throw?
    ensures OwnLinks(g, file, name, links).Ok? ==>
              forall t | t in LinkTargets(g, file, name, link).value :: t in OwnLinks(g, file, name, links).value
    decreases links
  {
    hide LinkTargets;
    if link != links[0] {
      OwnLinkIn(g, file, name, links[1..], link);
    }
  }

  lemma {:induction false} FollowedLinkIn(g: Graph, file: Text, name: Text, chain: set<(Text, Text)>, links: seq<Link>, link: Link)
    requires link in links && FollowLinks(g, file, name, chain, links).Ok?
    ensures LinkTargets(g, file, name, link).Ok?
    ensures var all, next := FollowLinks(g, file, name, chain, links).value, StarOf(g, file, name, link);
            && (next.None? ==> forall t | t in LinkTargets(g, file, name, link).value :: t in all)
            && (next.Some? ==> ResolveExportTargets(g, next.value, name, chain).Ok?
                               && forall t | t in ResolveExportTargets(g, next.value, name, chain).value :: t in all)
    decreases links
  {
    hide LinkTargets, StarOf, ResolveExportTargets;
    if StarOf(g, file, name, link).Some? {
      StarAddsNothing(g, file, name, link);
    }
    if link != links[0] {
      FollowedLinkIn(g, file, name, chain, links[1..], link);
    }
  }

  /** A star that leads on adds nothing by itself. */
  lemma StarAddsNothing(g: Graph, file: Text, name: Text, link: Link)
    requires StarOf(g, file, name, link).Some?
    ensures LinkTargets(g, file, name, link) == Ok([])
  {
  }

  lemma {:induction false} FollowThrows(g: Graph, file: Text, name: Text, chain: set<(Text, Text)>, links: seq<Link>) returns (link: Link)
    requires FollowLinks(g, file, name, chain, links).Throw?
    ensures link in links
    ensures LinkTargets(g, file, name, link).Throw? ||
            (StarOf(g, file, name, link).Some?
             && ResolveExportTargets(g, StarOf(g, file, name, link).value, name, chain).Throw?)
    decreases links
  {
    hide LinkTargets, StarOf, ResolveExportTargets;
    if FollowLinks(g, file, name, chain, links[1..]).Throw? {
      link := FollowThrows(g, file, name, chain, links[1..]);
    } else {
      link := links[0];
    }
  }

  /** Every target returned is one that a reachable module has of its own. */
  lemma {:induction false} ResolvedAreOwn(g: Graph, file: Text, name: Text, chain: set<(Text, Text)>, t: Target)
    requires ResolveExportTargets(g, file, name, chain).Ok? && t in ResolveExportTargets(g, file, name, chain).value
    ensures exists last :: StarReaches(g, name, file, last) && IsOwnTarget(g, name, last, t)
    decreases |OffChain(g, name, chain)|
  {
    hide FollowLinks, TailTargets, DeclaredTargets, OwnLinks, StarOf, LinkTargets, Own, StarReaches, Deduplicated, OffChain;
    var m := g.modules[file];
    var more := chain + {(file, name)};
    var links, tail := FollowLinks(g, file, name, more, m.links), TailTargets(g, file, name, m);
    DeduplicatedKeys(DeclaredTargets(file, name, m) + (links.value + tail.value));
    ResolvedOwnOk(g, file, name, more);
    OwnParts(g, file, name);
    ReachesSelf(g, name, file);
    if t in DeclaredTargets(file, name, m) || t in tail.value {
      assert IsOwnTarget(g, name, file, t);
    } else {
      var link := FollowedLink(g, file, name, more, m.links, t);
      OwnLinkIn(g, file, name, m.links, link);
      if LinkTargets(g, file, name, link).Ok? && t in LinkTargets(g, file, name, link).value {
        assert IsOwnTarget(g, name, file, t);
      } else {
        var next := StarOf(g, file, name, link).value;
        ChainGrows(g, file, name, chain);
        ResolvedAreOwn(g, next, name, more, t);
        var last :| StarReaches(g, name, next, last) && IsOwnTarget(g, name, last, t);
        assert StarEdge(g, name, file, next);
        ReachesOn(g, name, file, next, last);
      }
    }
  }

  /** A look-up that returns has looked at the module's own links without a throw. */
  lemma {:induction false} FollowedOwnOk(g: Graph, file: Text, name: Text, chain: set<(Text, Text)>, links: seq<Link>)
    requires FollowLinks(g, file, name, chain, links).Ok?
    ensures OwnLinks(g, file, name, links).Ok?
    decreases links
  {
    hide LinkTargets, StarOf, ResolveExportTargets;
    if links != [] {
      FollowedOwnOk(g, file, name, chain, links[1..]);
      if StarOf(g, file, name, links[0]).Some? {
        StarAddsNothing(g, file, name, links[0]);
      }
    }
  }

  lemma ResolvedOwnOk(g: Graph, file: Text, name: Text, more: set<(Text, Text)>)
    requires file in g.modules && FollowLinks(g, file, name, more, g.modules[file].links).Ok?
    ensures OwnLinks(g, file, name, g.modules[file].links).Ok?
  {
    FollowedOwnOk(g, file, name, more, g.modules[file].links);
  }

  /** Along a simple path off the chain, the look-up reaches the last module: it returns its keys, or throws as it does. */
  lemma {:induction false} PathIsFollowed(g: Graph, name: Text, chain: set<(Text, Text)>, path: seq<Text>)
    requires IsStarPath(g, name, path) && IsSimple(path) && forall k | 0 <= k < |path| :: (path[k], name) !in chain
    ensures var found, own := ResolveExportTargets(g, path[0], name, chain), Own(g, path[|path| - 1], name);
            && (own.Throw? ==> found.Throw?)
            && (found.Ok? ==> KeySet(own.value) <= KeySet(found.value))
    decreases |path|
  {
    hide FollowLinks, TailTargets, DeclaredTargets, OwnLinks, StarOf, LinkTargets, Own, Deduplicated, OffChain, StarEdge, KeySet;
    var file := path[0];
    var found := ResolveExportTargets(g, file, name, chain);
    if found.Ok? {
      var m := g.modules[file];
      var more := chain + {(file, name)};
      var links, tail := FollowLinks(g, file, name, more, m.links), TailTargets(g, file, name, m);
      var all := DeclaredTargets(file, name, m) + (links.value + tail.value);
      DeduplicatedKeys(all);
      OwnParts(g, file, name);
      ResolvedOwnOk(g, file, name, more);
      if |path| == 1 {
        OwnLinksAreFollowed(g, file, name, more, m.links);
        KeysMonotone(Own(g, file, name).value, all);
      } else {
        var next := path[1];
        assert StarEdge(g, name, path[0], path[1]);
        var link := EdgeLink(g, name, file, next);
        FollowedLinkIn(g, file, name, more, m.links, link);
        var rest := path[1..];
        TailIsPath(g, name, path);
        assert rest[|rest| - 1] == path[|path| - 1];
        PathIsFollowed(g, name, more, rest);
        KeysMonotone(ResolveExportTargets(g, next, name, more).value, all);
      }
    } else {
      OwnThrowIsThrow(g, path[|path| - 1], name);
    }
  }

  lemma OwnThrowIsThrow(g: Graph, file: Text, name: Text)
    ensures Own(g, file, name).Throw? ==> Own(g, file, name) == Throw
  {
  }

  lemma EdgeLink(g: Graph, name: Text, from: Text, onto: Text) returns (link: Link)
    requires StarEdge(g, name, from, onto)
    ensures link in g.modules[from].links && StarOf(g, from, name, link) == Some(onto)
  {
    link :| link in g.modules[from].links && StarOf(g, from, name, link) == Some(onto);
  }

  lemma TailIsPath(g: Graph, name: Text, path: seq<Text>)
    requires IsStarPath(g, name, path) && IsSimple(path) && |path| > 1
    ensures IsStarPath(g, name, path[1..]) && IsSimple(path[1..])
  {
    hide StarEdge;
    var rest := path[1..];
    forall i | 0 <= i < |rest| - 1
      ensures StarEdge(g, name, rest[i], rest[i + 1])
    {
      assert rest[i] == path[i + 1] && rest[i + 1] == path[i + 2];
    }
  }

  lemma KeysMonotone(some: seq<Target>, all: seq<Target>)
    requires forall t | t in some :: t in all
    ensures KeySet(some) <= KeySet(all)
  {
  }

  lemma {:induction false} OwnLinksAreFollowed(g: Graph, file: Text, name: Text, chain: set<(Text, Text)>, links: seq<Link>)
    requires FollowLinks(g, file, name, chain, links).Ok?
    ensures OwnLinks(g, file, name, links).Ok?
    ensures forall t | t in OwnLinks(g, file, name, links).value :: t in FollowLinks(g, file, name, chain, links).value
    decreases links
  {
    hide LinkTargets, StarOf, ResolveExportTargets;
    if links != [] {
      OwnLinksAreFollowed(g, file, name, chain, links[1..]);
      if StarOf(g, file, name, links[0]).Some? {
        StarAddsNothing(g, file, name, links[0]);
      }
    }
  }

  /** A look-up throws only because a reachable module throws when it is looked at itself. */
  lemma {:induction false} ThrowsAreOwn(g: Graph, file: Text, name: Text, chain: set<(Text, Text)>)
    requires ResolveExportTargets(g, file, name, chain).Throw?
    ensures exists last :: StarReaches(g, name, file, last) && Own(g, last, name).Throw?
    decreases |OffChain(g, name, chain)|
  {
    hide FollowLinks, TailTargets, DeclaredTargets, OwnLinks, StarOf, LinkTargets, Own, StarReaches, Deduplicated, OffChain;
    ReachesSelf(g, name, file);
    if file !in g.modules {
      MissingThrows(g, file, name);
    } else {
      var m := g.modules[file];
      var more := chain + {(file, name)};
      OwnParts(g, file, name);
      if TailTargets(g, file, name, m).Ok? {
        var link := FollowThrows(g, file, name, more, m.links);
        OwnLinkIn(g, file, name, m.links, link);
        if LinkTargets(g, file, name, link).Ok? {
          var next := StarOf(g, file, name, link).value;
          ChainGrows(g, file, name, chain);
          ThrowsAreOwn(g, next, name, more);
          var last :| StarReaches(g, name, next, last) && Own(g, last, name).Throw?;
          assert StarEdge(g, name, file, next);
          ReachesOn(g, name, file, next, last);
        }
      }
    }
  }

  lemma MissingThrows(g: Graph, file: Text, name: Text)
    requires file !in g.modules
    ensures Own(g, file, name).Throw?
  {
  }

  /**
   Cutting cycles on the path loses nothing. The look-up throws exactly when some module
   reached through stars throws when looked at itself; otherwise it returns exactly the
   targets of the reached modules, one per key.
   */
  lemma ResolvesExactly(g: Graph, file: Text, name: Text)
    ensures var found := ResolveExportTargets(g, file, name, {});
            && (found.Throw? <==> exists last :: StarReaches(g, name, file, last) && Own(g, last, name).Throw?)
            && (found.Ok? ==>
                  && (forall t | t in found.value :: exists last :: StarReaches(g, name, file, last) && IsOwnTarget(g, name, last, t))
                  && (forall last, t | StarReaches(g, name, file, last) && IsOwnTarget(g, name, last, t) :: KeyOf(t) in KeySet(found.value)))
  {
    hide ResolveExportTargets, Own, KeyOf;
    var found := ResolveExportTargets(g, file, name, {});
    if found.Throw? {
      ThrowsAreOwn(g, file, name, {});
    } else {
      forall t | t in found.value
        ensures exists last :: StarReaches(g, name, file, last) && IsOwnTarget(g, name, last, t)
      {
        ResolvedAreOwn(g, file, name, {}, t);
      }
    }
    forall last | StarReaches(g, name, file, last)
      ensures Own(g, last, name).Throw? ==> found.Throw?
      ensures found.Ok? ==> Own(g, last, name).Ok? && KeySet(Own(g, last, name).value) <= KeySet(found.value)
    {
      var path :| IsStarPath(g, name, path) && path[0] == file && path[|path| - 1] == last;
      var simple := SimplePath(g, name, path);
      PathIsFollowed(g, name, {}, simple);
    }
  }

  /** `default` comes from the module itself, whatever its stars lead to. */
  lemma DefaultIsOwn(g: Graph, file: Text)
    ensures var found, own := ResolveExportTargets(g, file, DEFAULT, {}), Own(g, file, DEFAULT);
            && (found.Throw? <==> own.Throw?)
            && (found.Ok? ==> KeySet(found.value) == KeySet(own.value) && forall t | t in found.value :: t in own.value)
  {
    hide ResolveExportTargets, Own, KeyOf, Ascii, StarReaches;
    ResolvesExactly(g, file, DEFAULT);
    ReachesSelf(g, DEFAULT, file);
    forall last | StarReaches(g, DEFAULT, file, last)
      ensures last == file
    {
      DefaultStays(g, file, last);
    }
    var found, own := ResolveExportTargets(g, file, DEFAULT, {}), Own(g, file, DEFAULT);
    if found.Ok? {
      forall t | t in found.value
        ensures t in own.value
      {
        var last :| StarReaches(g, DEFAULT, file, last) && IsOwnTarget(g, DEFAULT, last, t);
      }
      KeysMonotone(found.value, own.value);
      forall t | t in own.value
        ensures KeyOf(t) in KeySet(found.value)
      {
        assert IsOwnTarget(g, DEFAULT, file, t);
      }
    }
  }
}
