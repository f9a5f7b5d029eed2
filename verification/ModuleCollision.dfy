/**
 Why the order can matter: a binding that is called `all` has the key of a namespace import, so
 an entry module that imports both from one module finds what its first import leads to.
 */
module ModuleCollision {
  import opened CodeUnits
  import opened ModuleGraph
  import opened ModuleNames
  import opened ModuleVisit
  import opened ModuleDiscovery

  const E := Ascii("e")
  const M := Ascii("m")
  const N := Ascii("n")
  const ALL := Ascii("all")
  const X := Ascii("x")

  /** `m` declares `all` and re-exports everything of `n`; `n` declares `x`. Both are UI source. */
  const BARREL := Module([], {ALL}, [Star(N)], [], map[], {}, [])
  const LEAF := Module([], {X}, [], [], map[], {}, [])

  /** The entry module `e` imports `all` and `*` from `m`, in one order or the other. */
  function App(namedFirst: bool): Graph {
    var named, whole := Import(M, Named([ALL])), Import(M, All);
    var entry := Module(if namedFirst then [named, whole] else [whole, named], {}, [], [], map[], {}, []);
    Graph(map[E := entry, M := BARREL, N := LEAF], map[(M, E) := M, (N, M) := N], {M, N}, {E}, {E, M, N})
  }

  const ENTRY := Target(E, Execute)
  const NAMED_ALL := Target(M, Named([ALL]))
  const WHOLE := Target(M, All)
  const BARREL_RUN := Target(M, Execute)
  const LEAF_RUN := Target(N, Execute)

  lemma Words()
    ensures E != M && E != N && M != N && ALL != X && ALL != DEFAULT && X != DEFAULT && N != LUCIDE && M != ALL
    ensures !IsPublished(N) && !IsPublished(M) && N != []
    ensures KeyOf(NAMED_ALL) == KeyOf(WHOLE) && NAMED_ALL != WHOLE
  {
    assert |E| == 1 && |M| == 1 && |N| == 1 && |ALL| == 3 && |X| == 1 && |DEFAULT| == 7 && |LUCIDE| == 12 && |PUBLISHED| == 11;
    assert E[0] == 0x65 && M[0] == 0x6D && N[0] == 0x6E;
  }

  ghost predicate IsApp(g: Graph) {
    exists namedFirst :: g == App(namedFirst)
  }

  lemma LeafTargets(g: Graph, name: Text, chain: set<(Text, Text)>)
    requires IsApp(g) && (name == ALL || name == X)
    requires (N, name) !in chain
    ensures ResolveExportTargets(g, N, name, chain) == Ok(if name == X then [LEAF_RUN] else [])
  {
    hide Ascii;
    Words();
    assert FollowLinks(g, N, name, chain + {(N, name)}, []) == Ok([]);
    assert Deduplicated([LEAF_RUN]) == [LEAF_RUN];
  }

  lemma BarrelTargets(g: Graph, name: Text)
    requires IsApp(g) && (name == ALL || name == X)
    ensures TargetsOf(g, WHOLE, name) == Ok([if name == X then LEAF_RUN else BARREL_RUN])
  {
    hide Ascii, Deduplicated;
    Words();
    var chain := {(M, name)};
    assert {} + {(M, name)} == chain;
    LeafTargets(g, name, chain);
    StarFollowed(g, name, chain);
    OneDeduplicated(LEAF_RUN);
    OneDeduplicated(BARREL_RUN);
    assert [BARREL_RUN] + ([] + []) == [BARREL_RUN] && [] + ([LEAF_RUN] + []) == [LEAF_RUN];
    assert g.modules[M] == BARREL && [LEAF_RUN] + [] == [LEAF_RUN];
    assert TailTargets(g, M, name, BARREL) == Ok([]);
    var links := FollowLinks(g, M, name, chain, BARREL.links);
    assert links == Ok(if name == X then [LEAF_RUN] else []);
    var all := Append(Ok(DeclaredTargets(M, name, BARREL)), Append(links, TailTargets(g, M, name, BARREL)));
    assert all == Ok([if name == X then LEAF_RUN else BARREL_RUN]);
  }

  lemma StarFollowed(g: Graph, name: Text, chain: set<(Text, Text)>)
    requires IsApp(g) && (name == ALL || name == X)
    ensures FollowLinks(g, M, name, chain, BARREL.links) ==
            Append(ResolveExportTargets(g, N, name, chain), Ok([]))
  {
    hide Ascii, ResolveExportTargets;
    Words();
    assert BARREL.links[1..] == [];
    assert StarOf(g, M, name, BARREL.links[0]) == Some(N);
    assert FollowLinks(g, M, name, chain, []) == Ok([]);
  }

  lemma OneDeduplicated(t: Target)
    ensures Deduplicated([t]) == [t]
  {
    hide KeyOf;
    var one := [t];
    assert one[..|one| - 1] == [] && one[|one| - 1] == t;
    assert Deduplicated(one[..|one| - 1]) == [];
    assert Upsert([], t) == [t];
  }

  lemma BarrelNames(g: Graph)
    requires IsApp(g)
    ensures RuntimeExportNames(g, M, {}) == Ok({ALL, X})
  {
    hide Ascii;
    Words();
    assert EntryNames([]) == {};
    assert {} + {M} == {M};
    assert g.modules[N] == LEAF && g.modules[M] == BARREL && N !in {M};
    assert NamesOfLinks(g, N, {M} + {N}, LEAF.links) == Ok({});
    assert {X} + {} + {} == {X};
    assert RuntimeExportNames(g, N, {M}) == Ok({X});
    assert BARREL.links[1..] == [];
    assert NamesOfLinks(g, M, {M}, []) == Ok({});
    assert {X} - {DEFAULT} == {X};
    assert NamesOfLink(g, M, {M}, BARREL.links[0]) == Ok({X});
    assert NamesOfLinks(g, M, {M}, BARREL.links) == Ok({X});
    assert BARREL.declared + EntryNames(BARREL.localExports) + {X} == {ALL, X};
    assert M !in {} && M in g.modules;
    assert RuntimeExportNames(g, M, {}) == Union(Ok(BARREL.declared + EntryNames(BARREL.localExports)), Ok({X}));
  }

  /** Running `m` or `n` leads nowhere. */
  lemma RunsLeadNowhere(g: Graph, n: Target)
    requires IsApp(g) && (n == BARREL_RUN || n == LEAF_RUN)
    ensures !Fails(g, n) && forall m :: !Edge(g, n, m)
  {
    hide Ascii, ResolveExportTargets;
    Words();
  }

  lemma NamedAllEdges(g: Graph)
    requires IsApp(g)
    ensures !Fails(g, NAMED_ALL) && forall m | Edge(g, NAMED_ALL, m) :: m == BARREL_RUN
  {
    hide Ascii, ResolveExportTargets, Followed;
    Words();
    BarrelTargets(g, ALL);
    assert TargetsOf(g, NAMED_ALL, ALL) == TargetsOf(g, WHOLE, ALL);
    assert WantedNames(g, NAMED_ALL).value == {ALL};
  }

  lemma WholeEdges(g: Graph)
    requires IsApp(g)
    ensures !Fails(g, WHOLE) && forall m | Edge(g, WHOLE, m) :: m == BARREL_RUN || m == LEAF_RUN
    ensures Edge(g, WHOLE, LEAF_RUN)
  {
    hide Ascii, ResolveExportTargets, RuntimeExportNames, Followed;
    Words();
    BarrelTargets(g, ALL);
    BarrelTargets(g, X);
    BarrelNames(g);
    assert Followed(g, N) by { AllFollowed(g); }
    assert X in WantedNames(g, WHOLE).value && LEAF_RUN in TargetsOf(g, WHOLE, X).value;
    assert HasExport(g, WHOLE, LEAF_RUN);
  }

  lemma AllFollowed(g: Graph)
    requires IsApp(g)
    ensures Followed(g, E) && Followed(g, N) && Followed(g, M)
  {
  }

  lemma EntryImports(g: Graph, d: Import)
    requires IsApp(g) && d.specifier == M
    ensures ImportNode(g, E, d) == Ok(Some(Target(M, d.selection)))
  {
    hide Ascii;
    Words();
  }

  lemma EntryEdges(g: Graph)
    requires IsApp(g)
    ensures !Fails(g, ENTRY) && forall m | Edge(g, ENTRY, m) :: m == NAMED_ALL || m == WHOLE
  {
    hide Ascii, ImportNode, ResolveExportTargets, Followed;
    Words();
    forall d | d in g.modules[E].imports
      ensures ImportNode(g, E, d) == Ok(Some(NAMED_ALL)) || ImportNode(g, E, d) == Ok(Some(WHOLE))
    {
      EntryImports(g, d);
    }
    assert WantedNames(g, ENTRY) == Ok({});
  }

  ghost const NODES: set<Target> := {ENTRY, NAMED_ALL, WHOLE, BARREL_RUN, LEAF_RUN}

  lemma NodesClosed(g: Graph)
    requires IsApp(g)
    ensures Closed(g, NODES) && forall y | y in NODES :: !Fails(g, y)
    ensures forall y | y in NODES && Edge(g, y, LEAF_RUN) :: y == WHOLE
  {
    hide Ascii, Edge, Fails, IsApp;
    EntryEdges(g);
    NamedAllEdges(g);
    WholeEdges(g);
    RunsLeadNowhere(g, BARREL_RUN);
    RunsLeadNowhere(g, LEAF_RUN);
    Words();
  }

  lemma ReachedAreNodes(g: Graph, entries: set<Text>)
    requires IsApp(g) && entries == {E}
    ensures Reached(g, entries) <= NODES
    ensures !exists n :: n in Reached(g, entries) && Fails(g, n)
  {
    hide Edge, Fails, Closed, Reaches, Reached, IsApp, Followed;
    NodesClosed(g);
    forall n | n in Reached(g, entries)
      ensures n in NODES
    {
      ReachedIsAll(g, entries, n);
      var e :| e in entries && Followed(g, e) && Reaches(g, Target(e, Execute), n);
      ReachedStays(g, NODES, ENTRY, n);
    }
  }

  /** What the first import of the entry module leads to is among the visited nodes. */
  lemma FirstIsVisited(namedFirst: bool, nodes: set<Target>)
    ensures FirstEntryIn(App(namedFirst), E, nodes) ==> (if namedFirst then NAMED_ALL else WHOLE) in nodes
  {
    hide Ascii, ImportNode;
    Words();
    var g := App(namedFirst);
    EntryImports(g, g.modules[E].imports[0]);
    assert KeyOf(NAMED_ALL) != KeyOf(ENTRY);
  }

  lemma FilesOf(g: Graph, nodes: set<Target>)
    requires IsApp(g)
    ensures Walked(g, [E], nodes) && NAMED_ALL in nodes ==> UiFiles(g, nodes) == {M}
    ensures Walked(g, [E], nodes) && WHOLE in nodes ==> UiFiles(g, nodes) == {M, N}
  {
    hide Walked, UiFiles;
    if Walked(g, [E], nodes) && NAMED_ALL in nodes {
      NamedFiles(g, nodes);
    }
    if Walked(g, [E], nodes) && WHOLE in nodes {
      WholeFiles(g, nodes);
    }
  }

  lemma WalkedNodes(g: Graph, nodes: set<Target>)
    requires IsApp(g) && Walked(g, [E], nodes)
    ensures nodes <= NODES && g.ui == {M, N} && Unambiguous(nodes)
    ensures forall n | n in nodes :: IsVisited(g, {E}, nodes, n)
  {
    hide Ascii, Reached, IsVisited, Unambiguous;
    WalkedIsExact(g, [E], nodes);
    assert EntrySet([E]) == {E};
    ReachedAreNodes(g, {E});
  }

  lemma NamedFiles(g: Graph, nodes: set<Target>)
    requires IsApp(g) && Walked(g, [E], nodes) && NAMED_ALL in nodes
    ensures UiFiles(g, nodes) == {M}
  {
    hide Ascii, Edge, Fails, Walked, FromEntries, KeyOf, IsApp, LeadsInto;
    Words();
    NodesClosed(g);
    WalkedNodes(g, nodes);
    assert WHOLE !in nodes;
    if LEAF_RUN in nodes {
      assert IsVisited(g, {E}, nodes, LEAF_RUN);
    }
  }

  lemma WholeFiles(g: Graph, nodes: set<Target>)
    requires IsApp(g) && Walked(g, [E], nodes) && WHOLE in nodes
    ensures UiFiles(g, nodes) == {M, N}
  {
    hide Ascii, Edge, Fails, Walked, FromEntries, KeyOf, IsApp, Unambiguous, HasReason;
    Words();
    WalkedNodes(g, nodes);
    assert IsVisited(g, {E}, nodes, WHOLE);
    WholeEdges(g);
    var x :| x in nodes && KeyOf(x) == KeyOf(LEAF_RUN);
    SameFile(x, LEAF_RUN);
  }

  lemma SameFile(t: Target, m: Target)
    requires KeyOf(t) == KeyOf(m)
    ensures t.file == m.file
  {
  }

  /** The same two imports in two orders: one misses a UI file that the other finds. */
  method TwoOrdersTwoAnswers() returns (namedFirst: Result<set<Text>>, wholeFirst: Result<set<Text>>)
    ensures namedFirst == Ok({M}) && wholeFirst == Ok({M, N}) && namedFirst != wholeFirst
  {
    hide Ascii, Edge, Fails, Followed, Reached, Walked, Unambiguous, Expected, FirstEntryIn, UiFiles, App;
    Words();
    assert EntrySet([E]) == {E};
    assert IsApp(App(true)) && IsApp(App(false));
    AllFollowed(App(true));
    AllFollowed(App(false));
    ReachedAreNodes(App(true), {E});
    ReachedAreNodes(App(false), {E});
    ghost var named, whole;
    namedFirst, named := CollectUiSourceFiles(App(true), [E]);
    FirstIsVisited(true, named);
    FilesOf(App(true), named);
    wholeFirst, whole := CollectUiSourceFiles(App(false), [E]);
    FirstIsVisited(false, whole);
    FilesOf(App(false), whole);
  }
}
