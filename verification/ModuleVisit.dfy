/**
 The walk that collects the UI source files: a visited set of (file, selection) keys over
 the import and export-target edges.
 */
module ModuleVisit {
  import opened CodeUnits
  import opened ModuleGraph
  import opened ModuleNames
  import R = ModuleResolution

  const PUBLISHED := Ascii("@adea-ai/ui")

  predicate IsPublished(specifier: Text) {
    specifier == PUBLISHED || PUBLISHED + [0x2F] <= specifier
  }

  predicate Followed(g: Graph, file: Text) {
    file in g.code && (file in g.ui || file in g.workspace)
  }

  /** `resolveImport`: where an import leads, if anywhere. */
  function ImportNode(g: Graph, file: Text, dependency: Import): Result<Option<Target>> {
    var published := IsPublished(dependency.specifier);
    match Resolve(g, file, dependency.specifier)
    case None => if published || file in g.ui then Throw else Ok(None)
    case Some(target) =>
      if target !in g.code then Ok(None)
      else if published && target !in g.ui then Throw
      else if target in g.ui || target in g.workspace then Ok(Some(Target(target, dependency.selection)))
      else Ok(None)
  }

  /** The export names a selection asks for. */
  function WantedNames(g: Graph, n: Target): Result<set<Text>> {
    match n.selection
    case Named(names) => Ok(set name | name in names)
    case All => RuntimeExportNames(g, n.file, {})
    case _ => Ok({})
  }

  function TargetsOf(g: Graph, n: Target, name: Text): Result<seq<Target>> {
    ResolveExportTargets(g, n.file, name, {})
  }

  // ----- the graph that is walked

  ghost predicate HasImport(g: Graph, n: Target, m: Target) {
    n.file in g.modules && exists d :: d in g.modules[n.file].imports && ImportNode(g, n.file, d) == Ok(Some(m))
  }

  ghost predicate HasExport(g: Graph, n: Target, m: Target) {
    WantedNames(g, n).Ok? &&
    exists name :: name in WantedNames(g, n).value && TargetsOf(g, n, name).Ok? && m in TargetsOf(g, n, name).value
  }

  ghost predicate Edge(g: Graph, n: Target, m: Target) {
    Followed(g, m.file) && (HasImport(g, n, m) || HasExport(g, n, m))
  }

  /** Visiting the node itself throws: an unreadable file, an import or a name that does not resolve. */
  ghost predicate Fails(g: Graph, n: Target) {
    || n.file !in g.modules
    || (exists d :: d in g.modules[n.file].imports && ImportNode(g, n.file, d).Throw?)
    || WantedNames(g, n).Throw?
    || exists name :: name in WantedNames(g, n).value && (TargetsOf(g, n, name).Throw? || TargetsOf(g, n, name).value == [])
  }

  ghost predicate IsPath(g: Graph, path: seq<Target>) {
    path != [] && forall i | 0 <= i < |path| - 1 :: Edge(g, path[i], path[i + 1])
  }

  ghost predicate Reaches(g: Graph, n: Target, m: Target) {
    exists path :: IsPath(g, path) && path[0] == n && path[|path| - 1] == m
  }

  lemma ReachesItself(g: Graph, n: Target)
    ensures Reaches(g, n, n)
  {
    assert IsPath(g, [n]);
  }

  lemma ReachesThrough(g: Graph, n: Target, next: Target, m: Target)
    ensures Edge(g, n, next) && Reaches(g, next, m) ==> Reaches(g, n, m)
  {
    hide Edge;
    if Edge(g, n, next) && Reaches(g, next, m) {
      var path :| IsPath(g, path) && path[0] == next && path[|path| - 1] == m;
      PathThrough(g, n, path);
    }
  }

  lemma PathThrough(g: Graph, n: Target, path: seq<Target>)
    requires IsPath(g, path) && Edge(g, n, path[0])
    ensures Reaches(g, n, path[|path| - 1])
  {
    hide Edge;
    var longer := [n] + path;
    forall i | 0 <= i < |longer| - 1
      ensures Edge(g, longer[i], longer[i + 1])
    {
      if i > 0 {
        assert longer[i] == path[i - 1] && longer[i + 1] == path[i];
      }
    }
    assert IsPath(g, longer);
  }

  /** A set of nodes that no edge leaves. */
  ghost predicate Closed(g: Graph, nodes: set<Target>) {
    forall n, m | n in nodes && Edge(g, n, m) :: m in nodes
  }

  /** No two nodes share a key. */
  ghost predicate Unambiguous(nodes: set<Target>) {
    forall n, m | n in nodes && m in nodes && KeyOf(n) == KeyOf(m) :: n == m
  }

  lemma {:induction false} ClosedHoldsReached(g: Graph, nodes: set<Target>, path: seq<Target>)
    requires Closed(g, nodes) && IsPath(g, path) && path[0] in nodes
    ensures path[|path| - 1] in nodes
    decreases |path|
  {
    hide Edge;
    if |path| > 1 {
      assert Edge(g, path[0], path[1]);
      var rest := path[1..];
      forall i | 0 <= i < |rest| - 1
        ensures Edge(g, rest[i], rest[i + 1])
      {
        assert rest[i] == path[i + 1] && rest[i + 1] == path[i + 2];
      }
      assert rest[|rest| - 1] == path[|path| - 1];
      ClosedHoldsReached(g, nodes, rest);
    }
  }

  // ----- what a stretch of the walk has done

  ghost function KeysOf(nodes: set<Target>): set<(Text, Text)> {
    set n | n in nodes :: KeyOf(n)
  }

  ghost function UiFiles(g: Graph, nodes: set<Target>): set<Text> {
    set n | n in nodes && n.file in g.ui :: n.file
  }

  /** Some node of the set leads to `x`. */
  ghost predicate LedTo(g: Graph, nodes: set<Target>, x: Target) {
    exists y :: y in nodes && Edge(g, y, x)
  }

  /** The key of everything that `x` leads to is taken. */
  ghost predicate LeadsInto(g: Graph, x: Target, keys: set<(Text, Text)>) {
    forall m | Edge(g, x, m) :: KeyOf(m) in keys
  }

  ghost predicate Settled(g: Graph, nodes: set<Target>, root: Target, x: Target) {
    Reaches(g, root, x) && !Fails(g, x) && (x == root || LedTo(g, nodes, x)) && LeadsInto(g, x, KeysOf(nodes))
  }

  /**
   The nodes between `before` and `after` are reached from `root`, by an edge of a visited
   node; they do not fail, and what they lead to has been visited, up to its key.
   */
  ghost predicate Explored(g: Graph, before: set<Target>, after: set<Target>, root: Target) {
    before <= after && forall x | x in after && x !in before :: Settled(g, after, root, x)
  }

  lemma KeysGrow(a: set<Target>, b: set<Target>)
    requires a <= b
    ensures KeysOf(a) <= KeysOf(b)
  {
    hide KeyOf;
  }

  lemma ExploredJoin(g: Graph, a: set<Target>, b: set<Target>, c: set<Target>, root: Target)
    requires Explored(g, a, b, root) && Explored(g, b, c, root)
    ensures Explored(g, a, c, root)
  {
    hide Reaches, Fails, Edge, KeysOf, KeyOf;
    KeysGrow(b, c);
    forall x | x in b && x !in a
      ensures Settled(g, c, root, x)
    {
      assert Settled(g, b, root, x);
    }
  }

  lemma ExploredFrom(g: Graph, a: set<Target>, b: set<Target>, n: Target, next: Target)
    requires Edge(g, n, next) && n in b && Explored(g, a, b, next)
    ensures Explored(g, a, b, n)
  {
    hide Reaches, Fails, Edge, KeysOf, KeyOf;
    forall x | x in b && x !in a
      ensures Settled(g, b, n, x)
    {
      assert Settled(g, b, next, x);
      ReachesThrough(g, n, next, x);
    }
  }

  lemma ExploredNothing(g: Graph, a: set<Target>, root: Target)
    ensures Explored(g, a, a, root)
  {
  }

  /** A node whose imports and export targets have all been visited is explored itself. */
  lemma ExploredNode(g: Graph, before: set<Target>, after: set<Target>, n: Target)
    requires n !in before && Explored(g, before + {n}, after, n)
    requires !Fails(g, n) && LeadsInto(g, n, KeysOf(after))
    ensures Explored(g, before, after, n)
  {
    hide Reaches, Fails, Edge, KeysOf, KeyOf;
    ReachesItself(g, n);
  }

  /** Visiting a node with a new key keeps the visited nodes apart. */
  lemma AddNode(g: Graph, was: set<Target>, n: Target)
    requires KeyOf(n) !in KeysOf(was)
    ensures n !in was
    ensures KeysOf(was + {n}) == KeysOf(was) + {KeyOf(n)}
    ensures UiFiles(g, was + {n}) == UiFiles(g, was) + if n.file in g.ui then {n.file} else {}
    ensures Unambiguous(was) ==> Unambiguous(was + {n})
  {
    hide KeyOf;
  }

  lemma IsTargetsOf(g: Graph, n: Target, name: Text)
    ensures TargetsOf(g, n, name) == ResolveExportTargets(g, n.file, name, {})
  {
  }

  /** The names to look up for a selection. */
  method NamesWanted(g: Graph, n: Target) returns (names: Result<set<Text>>)
    ensures names == WantedNames(g, n)
  {
    match n.selection
    case Named(list) => names := Ok(set name | name in list);
    case All => names := R.ExportNames(g, n.file, {});
    case _ => names := Ok({});
  }

  class Discovery {
    const g: Graph
    var visited: set<(Text, Text)>
    var files: set<Text>
    ghost var nodes: set<Target>

    ghost predicate Valid()
      reads this
    {
      visited == KeysOf(nodes) && files == UiFiles(g, nodes) && Unambiguous(nodes)
    }

    constructor (g: Graph)
      ensures Valid() && this.g == g && visited == {} && files == {} && nodes == {}
    {
      this.g := g;
      visited, files, nodes := {}, {}, {};
    }

    /**
     `visit`, on any graph: what it visits is reached and kept apart by key, nothing it leads
     to is left out but for a key that was taken, and it throws only where a reached node
     fails. A key that was seen before ends the visit whatever node it was seen for.
     */
    method Visit(n: Target, ghost universe: set<Target>) returns (ok: bool)
      requires Valid() && nodes <= universe && Closed(g, universe) && (Followed(g, n.file) ==> n in universe)
      modifies this
      ensures Valid() && old(nodes) <= nodes <= universe && old(visited) <= visited
      ensures KeyOf(n) in old(visited) || !Followed(g, n.file) ==> ok && nodes == old(nodes) && visited == old(visited)
      ensures ok ==> Explored(g, old(nodes), nodes, n) && (Followed(g, n.file) ==> KeyOf(n) in visited)
      ensures ok && Followed(g, n.file) && KeyOf(n) !in old(visited) ==>
                n in nodes && n.file in g.modules && FirstImportIn(g, n, old(visited) + {KeyOf(n)}, nodes)
      ensures !ok ==> exists x :: Reaches(g, n, x) && Fails(g, x)
      decreases |universe - nodes|, 0
    {
      hide Fails, Edge, Reaches, Closed, KeyOf, Explored, Unambiguous, KeysOf, UiFiles, ImportsDone, ExportsDone, FirstImportIn;
      ExploredNothing(g, nodes, n);
      if !Followed(g, n.file) {
        return true;
      }
      if KeyOf(n) in visited {
        return true;
      }
      ghost var before := nodes;
      AddNode(g, before, n);
      visited, nodes := visited + {KeyOf(n)}, nodes + {n};
      if n.file in g.ui {
        files := files + {n.file};
      }
      if n.file !in g.modules {
        MissingFails(g, n);
        ReachesItself(g, n);
        return false;
      }
      Shrinks(universe, before, nodes, n);
      ok := VisitImports(n, universe);
      if ok {
        ghost var imported, keys := nodes, visited;
        Shrinks(universe, before, nodes, n);
        ok := VisitExports(n, universe);
        if ok {
          FirstImportStays(g, n, old(visited) + {KeyOf(n)}, imported, nodes);
          VisitDone(g, before, imported, nodes, n);
        }
      }
    }

    method VisitImports(n: Target, ghost universe: set<Target>) returns (ok: bool)
      requires Valid() && n in nodes && nodes <= universe && Closed(g, universe) && n.file in g.modules
      modifies this
      ensures Valid() && old(nodes) <= nodes <= universe && old(visited) <= visited
      ensures ok ==> Explored(g, old(nodes), nodes, n) && ImportsDone(g, n, visited, |g.modules[n.file].imports|)
      ensures ok ==> FirstImportIn(g, n, old(visited), nodes)
      ensures !ok ==> exists x :: Reaches(g, n, x) && Fails(g, x)
      decreases |universe - nodes|, 1
    {
      hide Fails, Edge, Reaches, Closed, KeyOf, Explored, ImportNode, Valid;
      ghost var before := nodes;
      ExploredNothing(g, nodes, n);
      var imports := g.modules[n.file].imports;
      for i := 0 to |imports|
        invariant Valid() && before <= nodes <= universe && old(visited) <= visited
        invariant Explored(g, before, nodes, n) && ImportsDone(g, n, visited, i)
        invariant i == 0 ==> visited == old(visited)
        invariant i > 0 ==> FirstImportIn(g, n, old(visited), nodes)
      {
        var next := ImportNode(g, n.file, imports[i]);
        if next.Throw? {
          ImportFails(g, n, imports[i]);
          ReachesItself(g, n);
          return false;
        }
        if next.value.Some? {
          ghost var was := nodes;
          ImportIsEdge(g, n, imports[i], next.value.value, universe);
          SubsetSize(universe - nodes, universe - before);
          ok := Visit(next.value.value, universe);
          if !ok {
            EdgeReachesFailure(g, n, next.value.value);
            return;
          }
          ExploredFrom(g, was, nodes, n, next.value.value);
          ExploredJoin(g, before, was, nodes, n);
        }
      }
      ok := true;
    }

    method VisitExports(n: Target, ghost universe: set<Target>) returns (ok: bool)
      requires Valid() && n in nodes && nodes <= universe && Closed(g, universe) && n.file in g.modules
      modifies this
      ensures Valid() && old(nodes) <= nodes <= universe && old(visited) <= visited
      ensures ok ==> Explored(g, old(nodes), nodes, n) && WantedNames(g, n).Ok? && ExportsDone(g, n, visited, WantedNames(g, n).value)
      ensures !ok ==> exists x :: Reaches(g, n, x) && Fails(g, x)
      decreases |universe - nodes|, 2
    {
      hide Fails, Edge, Reaches, Closed, KeyOf, Explored, WantedNames, TargetsOf, Valid;
      ghost var before := nodes;
      ExploredNothing(g, nodes, n);
      ReachesItself(g, n);
      var names := NamesWanted(g, n);
      if names.Throw? {
        NamesFail(g, n);
        return false;
      }
      var todo, done := names.value, {};
      while todo != {}
        invariant Valid() && before <= nodes <= universe && old(visited) <= visited
        invariant todo + done == names.value
        invariant Explored(g, before, nodes, n) && ExportsDone(g, n, visited, done)
      {
        var name :| name in todo;
        var targets := R.ResolveTargets(g, n.file, name, {});
        IsTargetsOf(g, n, name);
        if targets.Throw? || targets.value == [] {
          NameFails(g, n, name);
          return false;
        }
        ghost var was := nodes;
        SubsetSize(universe - nodes, universe - before);
        ok := VisitTargets(n, name, targets.value, universe);
        if !ok {
          return;
        }
        ExploredJoin(g, before, was, nodes, n);
        todo, done := todo - {name}, done + {name};
      }
      assert done == names.value;
      ok := true;
    }

    method VisitTargets(n: Target, name: Text, targets: seq<Target>, ghost universe: set<Target>) returns (ok: bool)
      requires Valid() && n in nodes && nodes <= universe && Closed(g, universe)
      requires WantedNames(g, n).Ok? && name in WantedNames(g, n).value && TargetsOf(g, n, name) == Ok(targets)
      modifies this
      ensures Valid() && old(nodes) <= nodes <= universe && old(visited) <= visited
      ensures ok ==> Explored(g, old(nodes), nodes, n)
      ensures ok ==> forall j | 0 <= j < |targets| :: Followed(g, targets[j].file) ==> KeyOf(targets[j]) in visited
      ensures !ok ==> exists x :: Reaches(g, n, x) && Fails(g, x)
      decreases |universe - nodes|, 1
    {
      hide Fails, Edge, Reaches, Closed, KeyOf, Explored, WantedNames, TargetsOf, Valid, Followed;
      ghost var before := nodes;
      ExploredNothing(g, nodes, n);
      for k := 0 to |targets|
        invariant Valid() && before <= nodes <= universe && old(visited) <= visited
        invariant Explored(g, before, nodes, n)
        invariant forall j | 0 <= j < k :: Followed(g, targets[j].file) ==> KeyOf(targets[j]) in visited
      {
        var next := targets[k];
        ghost var was := nodes;
        ExportIsEdge(g, n, name, next, universe);
        SubsetSize(universe - nodes, universe - before);
        ok := Visit(next, universe);
        if !ok {
          EdgeReachesFailure(g, n, next);
          return;
        }
        if Followed(g, next.file) {
          ExploredFrom(g, was, nodes, n, next);
        } else {
          ExploredNothing(g, nodes, n);
        }
        ExploredJoin(g, before, was, nodes, n);
      }
      ok := true;
    }
  }

  lemma SubsetSize<T>(a: set<T>, b: set<T>)
    requires a <= b
    ensures |a| <= |b|
  {
    assert b == a + (b - a);
  }

  lemma Shrinks(universe: set<Target>, before: set<Target>, after: set<Target>, n: Target)
    requires n in universe && n !in before && before + {n} <= after
    ensures |universe - after| < |universe - before|
  {
    SubsetSize(universe - after, universe - before - {n});
  }

  lemma VisitDone(g: Graph, before: set<Target>, imported: set<Target>, after: set<Target>, n: Target)
    requires n !in before && n.file in g.modules
    requires Explored(g, before + {n}, imported, n) && Explored(g, imported, after, n)
    requires ImportsDone(g, n, KeysOf(imported), |g.modules[n.file].imports|)
    requires WantedNames(g, n).Ok? && ExportsDone(g, n, KeysOf(after), WantedNames(g, n).value)
    ensures Explored(g, before, after, n)
  {
    hide Fails, Edge, Reaches, ImportNode, WantedNames, TargetsOf, KeyOf, KeysOf, LeadsInto;
    ExploredJoin(g, before + {n}, imported, after, n);
    KeysGrow(imported, after);
    NodeIsDone(g, n, KeysOf(after));
    ExploredNode(g, before, after, n);
  }

  lemma MissingFails(g: Graph, n: Target)
    requires n.file !in g.modules
    ensures Fails(g, n)
  {
  }

  lemma ImportFails(g: Graph, n: Target, d: Import)
    requires n.file in g.modules && d in g.modules[n.file].imports && ImportNode(g, n.file, d).Throw?
    ensures Fails(g, n)
  {
  }

  lemma NamesFail(g: Graph, n: Target)
    requires WantedNames(g, n).Throw?
    ensures Fails(g, n)
  {
  }

  lemma NameFails(g: Graph, n: Target, name: Text)
    requires WantedNames(g, n).Ok? && name in WantedNames(g, n).value
    requires TargetsOf(g, n, name).Throw? || TargetsOf(g, n, name).value == []
    ensures Fails(g, n)
  {
    hide WantedNames, TargetsOf;
  }

  lemma ImportIsEdge(g: Graph, n: Target, d: Import, m: Target, universe: set<Target>)
    requires n.file in g.modules && d in g.modules[n.file].imports && ImportNode(g, n.file, d) == Ok(Some(m))
    requires n in universe && Closed(g, universe)
    ensures Followed(g, m.file) && Edge(g, n, m) && m in universe
  {
    hide HasExport;
    assert HasImport(g, n, m);
    assert Edge(g, n, m);
  }

  lemma ExportIsEdge(g: Graph, n: Target, name: Text, m: Target, universe: set<Target>)
    requires WantedNames(g, n).Ok? && name in WantedNames(g, n).value
    requires TargetsOf(g, n, name).Ok? && m in TargetsOf(g, n, name).value
    requires n in universe && Closed(g, universe)
    ensures Followed(g, m.file) ==> Edge(g, n, m) && m in universe
  {
    hide HasImport, WantedNames, TargetsOf;
    assert HasExport(g, n, m);
    assert Followed(g, m.file) ==> Edge(g, n, m);
  }

  lemma EdgeReachesFailure(g: Graph, n: Target, next: Target)
    ensures Edge(g, n, next) && (exists x :: Reaches(g, next, x) && Fails(g, x)) ==> exists x :: Reaches(g, n, x) && Fails(g, x)
  {
    hide Edge, Reaches, Fails;
    if Edge(g, n, next) && exists x :: Reaches(g, next, x) && Fails(g, x) {
      var x :| Reaches(g, next, x) && Fails(g, x);
      ReachesThrough(g, n, next, x);
    }
  }

  /** The first `k` imports resolve, and what they lead to has been visited, up to its key. */
  ghost predicate ImportsDone(g: Graph, n: Target, keys: set<(Text, Text)>, k: nat)
    requires n.file in g.modules && k <= |g.modules[n.file].imports|
  {
    forall i | 0 <= i < k ::
      var next := ImportNode(g, n.file, g.modules[n.file].imports[i]);
      next.Ok? && (next.value.Some? ==> KeyOf(next.value.value) in keys)
  }

  ghost predicate ExportsDone(g: Graph, n: Target, keys: set<(Text, Text)>, names: set<Text>) {
    forall name | name in names ::
      var targets := TargetsOf(g, n, name);
      targets.Ok? && targets.value != [] && forall j | 0 <= j < |targets.value| ::
        Followed(g, targets.value[j].file) ==> KeyOf(targets.value[j]) in keys
  }

  /** The first import is visited first: only a key that was taken before keeps its node out. */
  ghost predicate FirstImportIn(g: Graph, n: Target, seen: set<(Text, Text)>, nodes: set<Target>)
    requires n.file in g.modules
  {
    var imports := g.modules[n.file].imports;
    imports != [] ==>
      var first := ImportNode(g, n.file, imports[0]);
      first.Ok? && first.value.Some? && KeyOf(first.value.value) !in seen ==> first.value.value in nodes
  }

  lemma FirstImportStays(g: Graph, n: Target, seen: set<(Text, Text)>, a: set<Target>, b: set<Target>)
    requires n.file in g.modules && FirstImportIn(g, n, seen, a) && a <= b
    ensures FirstImportIn(g, n, seen, b)
  {
    hide ImportNode, KeyOf;
  }

  lemma NodeIsDone(g: Graph, n: Target, keys: set<(Text, Text)>)
    requires n.file in g.modules && ImportsDone(g, n, keys, |g.modules[n.file].imports|)
    requires WantedNames(g, n).Ok? && ExportsDone(g, n, keys, WantedNames(g, n).value)
    ensures !Fails(g, n) && LeadsInto(g, n, keys)
  {
    hide WantedNames, TargetsOf, ImportNode, Followed, KeyOf;
    forall m | Edge(g, n, m)
      ensures KeyOf(m) in keys
    {
      if HasImport(g, n, m) {
        var d :| d in g.modules[n.file].imports && ImportNode(g, n.file, d) == Ok(Some(m));
        var i :| 0 <= i < |g.modules[n.file].imports| && g.modules[n.file].imports[i] == d;
      } else {
        var name :| name in WantedNames(g, n).value && TargetsOf(g, n, name).Ok? && m in TargetsOf(g, n, name).value;
        var j :| 0 <= j < |TargetsOf(g, n, name).value| && TargetsOf(g, n, name).value[j] == m;
      }
    }
  }
}
