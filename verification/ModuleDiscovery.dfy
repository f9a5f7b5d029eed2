/** The whole discovery: from the entry points to the set of UI source files. */
module ModuleDiscovery {
  import opened CodeUnits
  import opened ModuleGraph
  import opened ModuleNames
  import opened ModuleVisit

  // ----- the selections a graph speaks of

  const SEPARATOR: CodeUnit := 0x2C

  /** The pieces of a text between its commas. */
  function Pieces(t: Text): (pieces: seq<Text>)
    ensures pieces != []
  {
    if t == [] then [[]]
    else
      var rest := Pieces(t[1..]);
      if t[0] == SEPARATOR then [[]] + rest else [[t[0]] + rest[0]] + rest[1..]
  }

  function AllPieces(names: seq<Text>): (pieces: seq<Text>)
    ensures pieces != []
  {
    if names == [] then [[]] else if |names| == 1 then Pieces(names[0]) else Pieces(names[0]) + AllPieces(names[1..])
  }

  lemma {:induction false} PiecesOfJoin(a: Text, b: Text)
    ensures Pieces(a + [SEPARATOR] + b) == Pieces(a) + Pieces(b)
    decreases |a|
  {
    var t := a + [SEPARATOR] + b;
    if a == [] {
      assert t[1..] == b;
    } else {
      assert t[0] == a[0] && t[1..] == a[1..] + [SEPARATOR] + b;
      PiecesOfJoin(a[1..], b);
    }
  }

  lemma {:induction false} PiecesOfNames(names: seq<Text>)
    ensures Pieces(Joined(names)) == AllPieces(names)
    decreases |names|
  {
    if |names| > 1 {
      PiecesOfJoin(names[0], Joined(names[1..]));
      PiecesOfNames(names[1..]);
    }
  }

  lemma {:induction false} PiecesAreInjective(a: Text, b: Text)
    requires Pieces(a) == Pieces(b)
    ensures a == b
    decreases |a|
  {
    hide Pieces;
    FirstPiece(a);
    FirstPiece(b);
    if a != [] && b != [] {
      assert Pieces(a[1..]) == Pieces(b[1..]) by {
        var p, q := Pieces(a[1..]), Pieces(b[1..]);
        if a[0] == SEPARATOR {
          assert Pieces(a)[1..] == p && Pieces(b)[1..] == q;
        } else {
          assert Pieces(a)[1..] == p[1..] && Pieces(b)[1..] == q[1..];
          assert Pieces(a)[0][1..] == p[0] && Pieces(b)[0][1..] == q[0];
          assert p == [p[0]] + p[1..] && q == [q[0]] + q[1..];
        }
      }
      PiecesAreInjective(a[1..], b[1..]);
      assert a == [a[0]] + a[1..] && b == [b[0]] + b[1..];
    }
  }

  lemma FirstPiece(t: Text)
    ensures t == [] ==> Pieces(t) == [[]]
    ensures t != [] && t[0] == SEPARATOR ==> Pieces(t) == [[]] + Pieces(t[1..])
    ensures t != [] && t[0] != SEPARATOR ==> Pieces(t) == [[t[0]] + Pieces(t[1..])[0]] + Pieces(t[1..])[1..]
    ensures t != [] && t[0] == SEPARATOR ==> Pieces(t)[0] == [] && |Pieces(t)| > 1
    ensures t != [] && t[0] != SEPARATOR ==> Pieces(t)[0] != [] && Pieces(t)[0][0] == t[0]
  {
  }

  lemma {:induction false} OnePiece(t: Text)
    requires SEPARATOR !in t
    ensures Pieces(t) == [t]
    decreases |t|
  {
    if t != [] {
      OnePiece(t[1..]);
      assert t == [t[0]] + t[1..];
    }
  }

  function SelectionPieces(s: Selection): seq<Text> {
    if s.Named? then AllPieces(s.names) else [SelectionKey(s)]
  }

  /**
   Two selections share a key if and only if their pieces are the same: the comma-separated
   pieces of a name list, the word of a kind.
   */
  lemma KeysCollideExactly(s: Selection, t: Selection)
    ensures SelectionKey(s) == SelectionKey(t) <==> SelectionPieces(s) == SelectionPieces(t)
  {
    hide Ascii, Joined, Pieces, AllPieces;
    KeyPieces(s);
    KeyPieces(t);
    if SelectionPieces(s) == SelectionPieces(t) {
      PiecesAreInjective(SelectionKey(s), SelectionKey(t));
    }
  }

  lemma KeyPieces(s: Selection)
    ensures Pieces(SelectionKey(s)) == SelectionPieces(s)
  {
    hide Ascii, Joined, Pieces, AllPieces;
    if s.Named? {
      PiecesOfNames(s.names);
    } else {
      KindWords();
      OnePiece(SelectionKey(s));
    }
  }

  lemma KindWords()
    ensures Ascii("all") != Ascii("execute") && Ascii("all") != Ascii("side-effect") && Ascii("execute") != Ascii("side-effect")
    ensures SEPARATOR !in Ascii("all") && SEPARATOR !in Ascii("execute") && SEPARATOR !in Ascii("side-effect")
  {
    assert |Ascii("all")| == 3 && |Ascii("execute")| == 7 && |Ascii("side-effect")| == 11;
  }

  /** A list of import names without commas, as identifiers are. */
  predicate IsNameList(names: seq<Text>) {
    names != [] && forall k | 0 <= k < |names| :: SEPARATOR !in names[k]
  }

  /** The single imported names whose key is a kind's key. */
  predicate IsKindWord(names: seq<Text>) {
    names == [Ascii("all")] || names == [Ascii("execute")] || names == [Ascii("side-effect")]
  }

  lemma {:induction false} NameListPieces(names: seq<Text>)
    requires IsNameList(names)
    ensures AllPieces(names) == names
    decreases |names|
  {
    OnePiece(names[0]);
    if |names| > 1 {
      NameListPieces(names[1..]);
      assert names == [names[0]] + names[1..];
    }
  }

  /** A selection whose key no other selection of a name list or a kind has. */
  predicate IsOrdinary(s: Selection) {
    s.Named? ==> IsNameList(s.names) && !IsKindWord(s.names)
  }

  function EntrySelections(entries: seq<Entry>): set<Selection> {
    set e | e in entries :: Named([e.imported])
  }

  function LinkSelections(link: Link): set<Selection> {
    if link.Names? then EntrySelections(link.entries) else {}
  }

  function ModuleSelections(m: Module): set<Selection> {
    (set d | d in m.imports :: d.selection)
    + (set local | local in m.bindings :: m.bindings[local].selection)
    + (set link, s | link in m.links && s in LinkSelections(link) :: s)
  }

  function Selections(g: Graph): set<Selection> {
    {Execute, All} + set file, s | file in g.modules && s in ModuleSelections(g.modules[file]) :: s
  }

  /** Every node an edge of the graph can lead to. */
  function AllNodes(g: Graph): set<Target> {
    set file, s | file in g.code && s in Selections(g) :: Target(file, s)
  }

  predicate AllOrdinary(g: Graph) {
    forall s | s in Selections(g) :: IsOrdinary(s)
  }

  lemma OrdinaryIsUnambiguous(g: Graph)
    requires AllOrdinary(g)
    ensures Unambiguous(AllNodes(g))
  {
    hide Ascii, SelectionKey, Selections, IsNameList;
    forall n, m | n in AllNodes(g) && m in AllNodes(g) && KeyOf(n) == KeyOf(m)
      ensures n == m
    {
      OrdinaryKeys(n.selection, m.selection);
    }
  }

  lemma OrdinaryKeys(s: Selection, t: Selection)
    requires IsOrdinary(s) && IsOrdinary(t) && SelectionKey(s) == SelectionKey(t)
    ensures s == t
  {
    hide Ascii, Joined, IsNameList, AllPieces;
    KindWords();
    KeysCollideExactly(s, t);
    if s.Named? {
      NameListPieces(s.names);
    }
    if t.Named? {
      NameListPieces(t.names);
    }
  }

  // ----- no edge leaves `AllNodes`

  lemma {:induction false} EntryTargetSelections(g: Graph, file: Text, name: Text, specifier: Text, entries: seq<Entry>)
    requires EntryTargets(g, file, name, specifier, entries).Ok?
    ensures forall t | t in EntryTargets(g, file, name, specifier, entries).value ::
              t.selection == Execute || t.selection in EntrySelections(entries)
  {
    hide Ascii, Resolve;
    if entries != [] {
      EntryTargetSelections(g, file, name, specifier, entries[1..]);
      assert entries[0] in entries;
      forall s | s in EntrySelections(entries[1..])
        ensures s in EntrySelections(entries)
      {
      }
    }
  }

  lemma {:induction false} OwnLinkSelections(g: Graph, file: Text, name: Text, links: seq<Link>)
    requires OwnLinks(g, file, name, links).Ok?
    ensures forall t | t in OwnLinks(g, file, name, links).value ::
              t.selection == Execute || t.selection == All || exists link :: link in links && t.selection in LinkSelections(link)
  {
    hide Ascii, Resolve, EntryTargets, EntrySelections;
    if links != [] {
      OwnLinkSelections(g, file, name, links[1..]);
      if links[0].Names? && links[0].specifier != [] {
        EntryTargetSelections(g, file, name, links[0].specifier, links[0].entries);
      }
      assert links[0] in links;
    }
  }

  lemma {:induction false} LocalSelections(g: Graph, file: Text, name: Text, m: Module, entries: seq<Entry>)
    requires LocalTargets(g, file, name, m, entries).Ok?
    ensures forall t | t in LocalTargets(g, file, name, m, entries).value :: t.selection == Execute || t.selection in ModuleSelections(m)
  {
    hide Resolve;
    if entries != [] {
      LocalSelections(g, file, name, m, entries[1..]);
    }
  }

  lemma {:induction false} DefaultSelections(g: Graph, file: Text, m: Module, assignments: seq<Assignment>)
    ensures forall t | t in DefaultTargets(g, file, m, assignments) :: t.selection == Execute || t.selection in ModuleSelections(m)
  {
    hide Resolve;
    if assignments != [] {
      DefaultSelections(g, file, m, assignments[1..]);
    }
  }

  lemma LinkInModule(m: Module, link: Link, s: Selection)
    requires link in m.links && s in LinkSelections(link)
    ensures s in ModuleSelections(m)
  {
    hide LinkSelections;
  }

  lemma ModuleInGraph(g: Graph, file: Text, s: Selection)
    requires file in g.modules
    ensures Execute in Selections(g) && All in Selections(g)
    ensures s in ModuleSelections(g.modules[file]) ==> s in Selections(g)
  {
    hide ModuleSelections;
  }

  lemma OwnSelections(g: Graph, file: Text, name: Text, t: Target)
    requires IsOwnTarget(g, name, file, t)
    ensures t.selection in Selections(g)
  {
    hide Ascii, OwnLinks, LocalTargets, DefaultTargets, LinkSelections, ModuleSelections, Selections;
    var m := g.modules[file];
    OwnParts(g, file, name);
    OwnLinkSelections(g, file, name, m.links);
    LocalSelections(g, file, name, m, m.localExports);
    DefaultSelections(g, file, m, m.assignments);
    if exists link :: link in m.links && t.selection in LinkSelections(link) {
      var link :| link in m.links && t.selection in LinkSelections(link);
      LinkInModule(m, link, t.selection);
    }
    ModuleInGraph(g, file, t.selection);
  }

  lemma EdgeStays(g: Graph, n: Target, m: Target)
    requires Edge(g, n, m)
    ensures m in AllNodes(g)
  {
    hide ResolveExportTargets, RuntimeExportNames, ModuleSelections, StarReaches, IsOwnTarget, KeyOf;
    if HasImport(g, n, m) {
      ImportSelection(g, n, m);
    } else {
      var name :| name in WantedNames(g, n).value && TargetsOf(g, n, name).Ok? && m in TargetsOf(g, n, name).value;
      ResolvesExactly(g, n.file, name);
      var last :| StarReaches(g, name, n.file, last) && IsOwnTarget(g, name, last, m);
      OwnSelections(g, last, name, m);
    }
  }

  lemma ImportSelection(g: Graph, n: Target, m: Target)
    requires HasImport(g, n, m)
    ensures m.selection in Selections(g)
  {
    var d :| d in g.modules[n.file].imports && ImportNode(g, n.file, d) == Ok(Some(m));
    assert d.selection in ModuleSelections(g.modules[n.file]);
    ModuleInGraph(g, n.file, d.selection);
  }

  lemma AllNodesClosed(g: Graph)
    ensures Closed(g, AllNodes(g))
  {
    hide Edge, AllNodes;
    forall n, m | n in AllNodes(g) && Edge(g, n, m)
      ensures m in AllNodes(g)
    {
      EdgeStays(g, n, m);
    }
  }

  // ----- the specification

  function EntrySet(entries: seq<Text>): set<Text> {
    set e | e in entries
  }

  /** A followed node that some entry point reaches. */
  ghost predicate FromEntries(g: Graph, entries: set<Text>, n: Target) {
    exists e :: e in entries && Followed(g, e) && Reaches(g, Target(e, Execute), n)
  }

  /** All nodes the entry points reach. */
  ghost function Reached(g: Graph, entries: set<Text>): set<Target> {
    set n | n in AllNodes(g) && FromEntries(g, entries, n)
  }

  lemma ReachedIsAll(g: Graph, entries: set<Text>, n: Target)
    ensures n in Reached(g, entries) <==> FromEntries(g, entries, n)
  {
    hide Edge, Reaches, AllNodes, Closed;
    if FromEntries(g, entries, n) {
      var e :| e in entries && Followed(g, e) && Reaches(g, Target(e, Execute), n);
      EntryNode(g, e);
      AllNodesClosed(g);
      ReachedStays(g, AllNodes(g), Target(e, Execute), n);
    }
  }

  /**
   The UI files of the nodes the entry points reach. It throws when a reached node fails or
   no UI file is reached. No order of entries, imports or names appears in it.
   */
  ghost function Expected(g: Graph, entries: set<Text>): Result<set<Text>> {
    var reached := Reached(g, entries);
    if (exists n :: n in reached && Fails(g, n)) || UiFiles(g, reached) == {} then Throw else Ok(UiFiles(g, reached))
  }

  lemma EntryNode(g: Graph, e: Text)
    requires Followed(g, e)
    ensures Target(e, Execute) in AllNodes(g)
  {
    hide ModuleSelections;
  }

  lemma ReachedStays(g: Graph, nodes: set<Target>, root: Target, n: Target)
    requires Closed(g, nodes) && root in nodes && Reaches(g, root, n)
    ensures n in nodes
  {
    hide Edge, Closed;
    var path :| IsPath(g, path) && path[0] == root && path[|path| - 1] == n;
    ClosedHoldsReached(g, nodes, path);
  }

  // ----- a whole walk, on any graph

  /** An entry point, or led to by another visited node. */
  ghost predicate HasReason(g: Graph, entries: set<Text>, nodes: set<Target>, n: Target) {
    (exists e :: e in entries && n == Target(e, Execute)) || LedTo(g, nodes, n)
  }

  ghost predicate IsVisited(g: Graph, entries: set<Text>, nodes: set<Target>, n: Target) {
    FromEntries(g, entries, n) && !Fails(g, n) && HasReason(g, entries, nodes, n) && LeadsInto(g, n, KeysOf(nodes))
  }

  /**
   What a walk that does not throw has visited: one node for each key it met, each reached
   from an entry point through visited nodes, and a node for the key of every entry point and
   of everything a visited node leads to.
   */
  ghost predicate Walked(g: Graph, entries: seq<Text>, nodes: set<Target>) {
    && Unambiguous(nodes)
    && (forall k | 0 <= k < |entries| :: Followed(g, entries[k]) ==> KeyOf(Target(entries[k], Execute)) in KeysOf(nodes))
    && (forall n | n in nodes :: IsVisited(g, EntrySet(entries), nodes, n))
  }

  /** One more entry point visited. */
  lemma VisitedEntry(g: Graph, entries: seq<Text>, k: nat, before: set<Target>, after: set<Target>)
    requires k < |entries| && Walked(g, entries[..k], before) && Unambiguous(after)
    requires Explored(g, before, after, Target(entries[k], Execute))
    requires Followed(g, entries[k]) ==> KeyOf(Target(entries[k], Execute)) in KeysOf(after)
    requires !Followed(g, entries[k]) ==> after == before
    ensures Walked(g, entries[..k + 1], after)
  {
    hide Fails, Edge, Reaches, Followed, KeyOf, KeysOf, Unambiguous, LeadsInto;
    var some, all := EntrySet(entries[..k]), EntrySet(entries[..k + 1]);
    assert entries[..k + 1] == entries[..k] + [entries[k]];
    assert entries[k] in all;
    KeysGrow(before, after);
    forall n | n in after
      ensures IsVisited(g, all, after, n)
    {
      if n in before {
        assert IsVisited(g, some, before, n);
        LeadsIntoMore(g, n, KeysOf(before), KeysOf(after));
      } else {
        assert Settled(g, after, Target(entries[k], Execute), n);
      }
    }
  }

  lemma LeadsIntoMore(g: Graph, n: Target, a: set<(Text, Text)>, b: set<(Text, Text)>)
    requires LeadsInto(g, n, a) && a <= b
    ensures LeadsInto(g, n, b)
  {
    hide Edge, KeyOf;
  }

  /** When no two reached nodes share a key, a walk has visited every reached node. */
  lemma WalkedAll(g: Graph, entries: seq<Text>, nodes: set<Target>)
    requires Walked(g, entries, nodes) && Unambiguous(Reached(g, EntrySet(entries)))
    ensures nodes == Reached(g, EntrySet(entries))
  {
    hide Fails, Edge, Reaches, Followed, KeyOf, Reached, FromEntries, HasReason;
    var all := EntrySet(entries);
    var reached := Reached(g, all);
    forall n | n in nodes
      ensures n in reached
    {
      assert IsVisited(g, all, nodes, n);
      ReachedIsAll(g, all, n);
    }
    forall n, m | n in nodes && Edge(g, n, m)
      ensures m in nodes
    {
      assert IsVisited(g, all, nodes, n);
      ReachedOn(g, all, n, m);
      SeenKey(reached, nodes, m);
    }
    forall n | n in reached
      ensures n in nodes
    {
      ReachedIsAll(g, all, n);
      var e :| e in all && Followed(g, e) && Reaches(g, Target(e, Execute), n) by { EntryOf(g, all, n); }
      EntryReached(g, all, e);
      SeenKey(reached, nodes, Target(e, Execute));
      ReachedStays(g, nodes, Target(e, Execute), n);
    }
  }

  /** A reached node whose key was seen has been visited itself, when no two reached nodes share a key. */
  lemma SeenKey(reached: set<Target>, nodes: set<Target>, n: Target)
    requires nodes <= reached && Unambiguous(reached) && n in reached && KeyOf(n) in KeysOf(nodes)
    ensures n in nodes
  {
    hide KeyOf;
    var x :| x in nodes && KeyOf(x) == KeyOf(n);
  }

  lemma EntryOf(g: Graph, entries: set<Text>, n: Target)
    requires FromEntries(g, entries, n)
    ensures exists e :: e in entries && Followed(g, e) && Reaches(g, Target(e, Execute), n)
  {
  }

  lemma EntryReached(g: Graph, entries: set<Text>, e: Text)
    requires e in entries && Followed(g, e)
    ensures Target(e, Execute) in Reached(g, entries)
  {
    hide Edge, Reaches, Followed, Reached;
    ReachesItself(g, Target(e, Execute));
    assert FromEntries(g, entries, Target(e, Execute));
    ReachedIsAll(g, entries, Target(e, Execute));
  }

  lemma ReachedOn(g: Graph, entries: set<Text>, n: Target, m: Target)
    requires FromEntries(g, entries, n) && Edge(g, n, m)
    ensures m in Reached(g, entries)
  {
    hide Edge, Reached, Followed, AllNodes;
    var e :| e in entries && Followed(g, e) && Reaches(g, Target(e, Execute), n);
    var path :| IsPath(g, path) && path[0] == Target(e, Execute) && path[|path| - 1] == n;
    var longer := path + [m];
    forall i | 0 <= i < |longer| - 1
      ensures Edge(g, longer[i], longer[i + 1])
    {
      assert longer[i] == path[i];
      if i < |path| - 1 {
        assert longer[i + 1] == path[i + 1];
      }
    }
    assert IsPath(g, longer) && longer[0] == Target(e, Execute) && longer[|longer| - 1] == m;
    ReachedIsAll(g, entries, m);
  }

  /**
   On every graph: a walk visits only reached nodes, and it visits all of them if and only if
   no two reached nodes share a key.
   */
  lemma WalkedIsExact(g: Graph, entries: seq<Text>, nodes: set<Target>)
    requires Walked(g, entries, nodes)
    ensures nodes <= Reached(g, EntrySet(entries))
    ensures nodes == Reached(g, EntrySet(entries)) <==> Unambiguous(Reached(g, EntrySet(entries)))
  {
    hide Fails, Edge, Reaches, Followed, KeyOf, Reached, FromEntries, HasReason, Unambiguous, KeysOf, LeadsInto;
    var all := EntrySet(entries);
    forall n | n in nodes
      ensures n in Reached(g, all)
    {
      assert IsVisited(g, all, nodes, n);
      ReachedIsAll(g, all, n);
    }
    if Unambiguous(Reached(g, all)) {
      WalkedAll(g, entries, nodes);
    }
  }

  /** A graph whose selections are all ordinary has no such pair of nodes. */
  lemma OrdinaryIsExact(g: Graph, entries: set<Text>)
    requires AllOrdinary(g)
    ensures Unambiguous(Reached(g, entries))
  {
    hide AllOrdinary, AllNodes, KeyOf, FromEntries;
    OrdinaryIsUnambiguous(g);
  }

  /** The first entry point and its first import are visited before anything can take their keys. */
  ghost predicate FirstEntryIn(g: Graph, e: Text, nodes: set<Target>) {
    var n := Target(e, Execute);
    n in nodes && n.file in g.modules && FirstImportIn(g, n, {KeyOf(n)}, nodes)
  }

  lemma FirstEntryVisited(g: Graph, e: Text, nodes: set<Target>)
    requires var n := Target(e, Execute); n in nodes && e in g.modules && FirstImportIn(g, n, {KeyOf(n)}, nodes)
    ensures FirstEntryIn(g, e, nodes)
  {
  }

  lemma FirstEntryStays(g: Graph, e: Text, a: set<Target>, b: set<Target>)
    requires FirstEntryIn(g, e, a) && a <= b
    ensures FirstEntryIn(g, e, b)
  {
    hide ImportNode, KeyOf;
  }

  ghost predicate WalkedInOrder(g: Graph, entries: seq<Text>, nodes: set<Target>) {
    Walked(g, entries, nodes) && (entries != [] && Followed(g, entries[0]) ==> FirstEntryIn(g, entries[0], nodes))
  }

  /**
   `collectUiSourceFiles`, on every graph. What it lists are the UI files of a walk, and it
   throws only where a reached node fails or the walk met no UI file. When no two reached
   nodes share a key, that is exactly what is reached, and the order of entries, imports and
   names, cycles and shared modules make no difference.
   */
  method CollectUiSourceFiles(g: Graph, entries: seq<Text>) returns (files: Result<set<Text>>, ghost nodes: set<Target>)
    ensures files.Ok? ==> WalkedInOrder(g, entries, nodes) && files.value == UiFiles(g, nodes) != {}
    ensures files.Ok? ==>
              var reached := Reached(g, EntrySet(entries));
              nodes <= reached && (nodes == reached <==> Unambiguous(reached))
    ensures files.Throw? ==>
              || (exists n :: n in Reached(g, EntrySet(entries)) && Fails(g, n))
              || (WalkedInOrder(g, entries, nodes) && UiFiles(g, nodes) == {})
    ensures Unambiguous(Reached(g, EntrySet(entries))) ==> files == Expected(g, EntrySet(entries))
  {
    hide Fails, Edge, Reaches, Closed, Followed, KeyOf, Unambiguous, AllNodes, Expected, Explored, FromEntries, Reached, Walked, FirstEntryIn, FirstImportIn;
    var walk := new Discovery(g);
    AllNodesClosed(g);
    NothingVisited(g);
    for k := 0 to |entries|
      invariant fresh(walk) && walk.g == g && walk.Valid() && walk.nodes <= AllNodes(g)
      invariant Walked(g, entries[..k], walk.nodes)
      invariant k == 0 ==> walk.visited == {}
      invariant k > 0 && Followed(g, entries[0]) ==> FirstEntryIn(g, entries[0], walk.nodes)
    {
      var entry := Target(entries[k], Execute);
      ghost var before := walk.nodes;
      if Followed(g, entries[k]) {
        EntryNode(g, entries[k]);
      }
      var ok := walk.Visit(entry, AllNodes(g));
      if !ok {
        EntryThrows(g, entries, k);
        nodes := walk.nodes;
        files := Throw;
        return;
      }
      VisitedEntry(g, entries, k, before, walk.nodes);
      if k == 0 && Followed(g, entries[0]) {
        assert {} + {KeyOf(entry)} == {KeyOf(entry)};
        FirstEntryVisited(g, entries[0], walk.nodes);
      } else if Followed(g, entries[0]) {
        FirstEntryStays(g, entries[0], before, walk.nodes);
      }
    }
    assert entries[..|entries|] == entries;
    nodes := walk.nodes;
    WalkIsExpected(g, entries, nodes);
    WalkedIsExact(g, entries, nodes);
    files := if walk.files == {} then Throw else Ok(walk.files);
  }

  lemma WalkIsExpected(g: Graph, entries: seq<Text>, nodes: set<Target>)
    requires Walked(g, entries, nodes)
    ensures var found := UiFiles(g, nodes);
            Unambiguous(Reached(g, EntrySet(entries))) ==>
              Expected(g, EntrySet(entries)) == if found == {} then Throw else Ok(found)
  {
    hide Fails, Reached, Unambiguous, UiFiles, HasReason, FromEntries, LeadsInto;
    if Unambiguous(Reached(g, EntrySet(entries))) {
      WalkedAll(g, entries, nodes);
      forall n | n in nodes
        ensures !Fails(g, n)
      {
        assert IsVisited(g, EntrySet(entries), nodes, n);
      }
    }
  }

  lemma NothingVisited(g: Graph)
    ensures Walked(g, [], {})
  {
  }

  lemma EntryThrows(g: Graph, entries: seq<Text>, k: nat)
    requires k < |entries| && Followed(g, entries[k])
    requires exists x :: Reaches(g, Target(entries[k], Execute), x) && Fails(g, x)
    ensures exists n :: n in Reached(g, EntrySet(entries)) && Fails(g, n)
    ensures Expected(g, EntrySet(entries)) == Throw
  {
    hide Fails, Edge, Reaches, Followed, Reached;
    var x :| Reaches(g, Target(entries[k], Execute), x) && Fails(g, x);
    assert entries[k] in EntrySet(entries);
    assert FromEntries(g, EntrySet(entries), x);
    ReachedIsAll(g, EntrySet(entries), x);
  }

  /** `t` is a target of its own, for a wanted name, of a module that is star-reachable for it. */
  ghost predicate IsWantedTarget(g: Graph, n: Target, t: Target) {
    WantedNames(g, n).Ok? &&
    exists name, last :: name in WantedNames(g, n).value && StarReaches(g, name, n.file, last) && IsOwnTarget(g, name, last, t)
  }

  /** The export edges that are walked are, up to keys, exactly the own targets of the star-reachable modules. */
  lemma ExportEdgesAreExact(g: Graph, n: Target, m: Target)
    requires !Fails(g, n)
    ensures HasExport(g, n, m) ==> IsWantedTarget(g, n, m)
    ensures IsWantedTarget(g, n, m) ==> exists t :: HasExport(g, n, t) && KeyOf(t) == KeyOf(m)
  {
    hide ResolveExportTargets, WantedNames, StarReaches, IsOwnTarget, KeyOf, Ascii;
    if HasExport(g, n, m) {
      var name :| name in WantedNames(g, n).value && TargetsOf(g, n, name).Ok? && m in TargetsOf(g, n, name).value;
      ResolvesExactly(g, n.file, name);
    }
    if IsWantedTarget(g, n, m) {
      var name, last :| name in WantedNames(g, n).value && StarReaches(g, name, n.file, last) && IsOwnTarget(g, name, last, m);
      ResolvesExactly(g, n.file, name);
      var found := TargetsOf(g, n, name).value;
      assert KeyOf(m) in KeySet(found);
      var t :| t in found && KeyOf(t) == KeyOf(m);
      assert HasExport(g, n, t);
    }
  }
}
