/** The names a module exports at run time, and that each of them resolves. */
module ModuleNames {
  import opened CodeUnits
  import opened ModuleGraph

  function EntryNames(entries: seq<Entry>): (names: set<Text>)
    ensures forall n :: n in names <==> exists e :: e in entries && e.exported == n
  {
    set e | e in entries :: e.exported
  }

  /** What a link with a resolved specifier declares by itself. */
  function LinkNames(link: Link): set<Text> {
    match link
    case Star(_) => {}
    case Namespace(_, name) => {name}
    case Names(_, entries) => EntryNames(entries)
  }

  function Union(a: Result<set<Text>>, b: Result<set<Text>>): Result<set<Text>> {
    if a.Throw? || b.Throw? then Throw else Ok(a.value + b.value)
  }

  function FilesOff(g: Graph, chain: set<Text>): set<Text> {
    g.modules.Keys - chain
  }

  /** `runtimeExportNames`, as a set. */
  function RuntimeExportNames(g: Graph, file: Text, chain: set<Text>): Result<set<Text>>
    decreases |FilesOff(g, chain)|, 0
  {
    if file in chain then Ok({})
    else if file !in g.modules then Throw
    else
      assert FilesOff(g, chain + {file}) == FilesOff(g, chain) - {file};
      var m := g.modules[file];
      Union(Ok(m.declared + EntryNames(m.localExports)), NamesOfLinks(g, file, chain + {file}, m.links))
  }

  function NamesOfLinks(g: Graph, file: Text, chain: set<Text>, links: seq<Link>): Result<set<Text>>
    decreases |FilesOff(g, chain)|, 1 + |links|
  {
    if links == [] then Ok({})
    else Union(NamesOfLink(g, file, chain, links[0]), NamesOfLinks(g, file, chain, links[1..]))
  }

  function NamesOfLink(g: Graph, file: Text, chain: set<Text>, link: Link): Result<set<Text>>
    decreases |FilesOff(g, chain)|, 1
  {
    if link.Star? && link.specifier == LUCIDE then Ok({})
    else match Resolve(g, file, link.specifier)
      case None => if file in g.ui then Throw else Ok({})
      case Some(target) =>
        if !link.Star? then Ok(LinkNames(link))
        else match RuntimeExportNames(g, target, chain)
          case Throw => Throw
          case Ok(names) => Ok(names - {DEFAULT})
  }

  /** No specifier of the module is empty: the enumeration resolves an empty one, the resolution skips it. */
  predicate HasSpecifiers(m: Module) {
    forall link | link in m.links :: link.specifier != []
  }

  /** The module says itself that it exports the name, through a resolved specifier where it names one. */
  ghost predicate Declares(g: Graph, file: Text, name: Text) {
    file in g.modules &&
    var m := g.modules[file];
    || name in m.declared
    || name in EntryNames(m.localExports)
    || exists link :: link in m.links && !link.Star? && Resolve(g, file, link.specifier).Some? && name in LinkNames(link)
  }

  lemma {:induction false} LinkOfName(g: Graph, file: Text, chain: set<Text>, links: seq<Link>, name: Text) returns (link: Link)
    requires NamesOfLinks(g, file, chain, links).Ok? && name in NamesOfLinks(g, file, chain, links).value
    ensures link in links
    ensures NamesOfLink(g, file, chain, link).Ok? && name in NamesOfLink(g, file, chain, link).value
    decreases links
  {
    hide NamesOfLink;
    if name in NamesOfLink(g, file, chain, links[0]).value {
      link := links[0];
    } else {
      link := LinkOfName(g, file, chain, links[1..], name);
    }
  }

  /** Every name comes from a module reached through stars that declares it; `default` from the module itself. */
  lemma {:induction false} NamesAreDeclared(g: Graph, file: Text, chain: set<Text>, name: Text)
    requires forall last | StarReaches(g, name, file, last) && last in g.modules :: HasSpecifiers(g.modules[last])
    requires RuntimeExportNames(g, file, chain).Ok? && name in RuntimeExportNames(g, file, chain).value
    ensures exists last :: StarReaches(g, name, file, last) && Declares(g, last, name)
    decreases |FilesOff(g, chain)|
  {
    hide StarReaches, NamesOfLinks, EntryNames, LinkNames, Resolve, Ascii, HasSpecifiers;
    var m := g.modules[file];
    ReachesSelf(g, name, file);
    if name !in m.declared && name !in EntryNames(m.localExports) {
      var link := LinkOfName(g, file, chain + {file}, m.links, name);
      if link.Star? {
        assert FilesOff(g, chain + {file}) == FilesOff(g, chain) - {file};
        var next := Resolve(g, file, link.specifier).value;
        SpecifierIn(m, link);
        assert StarOf(g, file, name, link) == Some(next);
        assert StarEdge(g, name, file, next);
        forall last | StarReaches(g, name, next, last) && last in g.modules
          ensures HasSpecifiers(g.modules[last])
        {
          ReachesOn(g, name, file, next, last);
        }
        NamesAreDeclared(g, next, chain + {file}, name);
        var last :| StarReaches(g, name, next, last) && Declares(g, last, name);
        ReachesOn(g, name, file, next, last);
      } else {
        assert Declares(g, file, name);
      }
    } else {
      assert Declares(g, file, name);
    }
  }

  lemma SpecifierIn(m: Module, link: Link)
    requires HasSpecifiers(m) && link in m.links
    ensures link.specifier != []
  {
  }

  /** The module's local export lists name bindings that exist at run time, and what they import resolves. */
  ghost predicate WellBound(g: Graph, file: Text)
    requires file in g.modules
  {
    var m := g.modules[file];
    HasSpecifiers(m) && forall e | e in m.localExports ::
      if e.imported in m.bindings then Resolve(g, file, m.bindings[e.imported].specifier).Some? else e.imported in m.values
  }

  lemma {:induction false} LocalTargetsFound(g: Graph, file: Text, name: Text, m: Module, entries: seq<Entry>)
    requires forall e | e in entries ::
               if e.imported in m.bindings then Resolve(g, file, m.bindings[e.imported].specifier).Some? else e.imported in m.values
    requires name in EntryNames(entries)
    ensures LocalTargets(g, file, name, m, entries).Ok? ==> LocalTargets(g, file, name, m, entries).value != []
    decreases entries
  {
    hide Resolve;
    if entries[0].exported != name {
      assert name in EntryNames(entries[1..]) by {
        var e :| e in entries && e.exported == name;
        assert e in entries[1..];
      }
      LocalTargetsFound(g, file, name, m, entries[1..]);
    }
  }

  lemma {:induction false} EntryTargetsFound(g: Graph, file: Text, name: Text, specifier: Text, entries: seq<Entry>)
    requires Resolve(g, file, specifier).Some? && name in EntryNames(entries)
    ensures EntryTargets(g, file, name, specifier, entries).Ok? ==> EntryTargets(g, file, name, specifier, entries).value != []
    decreases entries
  {
    hide Resolve, Ascii;
    if entries[0].exported != name {
      assert name in EntryNames(entries[1..]) by {
        var e :| e in entries && e.exported == name;
        assert e in entries[1..];
      }
      EntryTargetsFound(g, file, name, specifier, entries[1..]);
    }
  }

  /** A module that declares a name has a target for it. */
  lemma DeclaredHasTarget(g: Graph, file: Text, name: Text)
    requires Declares(g, file, name) && WellBound(g, file) && Own(g, file, name).Ok?
    ensures Own(g, file, name).value != []
  {
    hide OwnLinks, LocalTargets, DefaultTargets, EntryTargets, EntryNames, Resolve, Ascii;
    var m := g.modules[file];
    OwnParts(g, file, name);
    if name in m.declared {
    } else if name in EntryNames(m.localExports) {
      LocalTargetsFound(g, file, name, m, m.localExports);
    } else {
      var link :| link in m.links && !link.Star? && Resolve(g, file, link.specifier).Some? && name in LinkNames(link);
      OwnLinkIn(g, file, name, m.links, link);
      if link.Names? {
        EntryTargetsFound(g, file, name, link.specifier, link.entries);
      }
      var targets := LinkTargets(g, file, name, link).value;
      assert targets[0] in targets;
    }
  }

  /** A look-up that returns finds something if and only if some star-reachable module has a target of its own. */
  lemma FindsSomethingIff(g: Graph, file: Text, name: Text)
    requires ResolveExportTargets(g, file, name, {}).Ok?
    ensures ResolveExportTargets(g, file, name, {}).value != [] <==>
            exists last :: StarReaches(g, name, file, last) && Own(g, last, name).Ok? && Own(g, last, name).value != []
  {
    hide ResolveExportTargets, Own, StarReaches, KeyOf;
    ResolvesExactly(g, file, name);
    var found := ResolveExportTargets(g, file, name, {}).value;
    if found != [] {
      assert found[0] in found;
      var last :| StarReaches(g, name, file, last) && IsOwnTarget(g, name, last, found[0]);
    }
    if exists last :: StarReaches(g, name, file, last) && Own(g, last, name).Ok? && Own(g, last, name).value != [] {
      var last :| StarReaches(g, name, file, last) && Own(g, last, name).Ok? && Own(g, last, name).value != [];
      var t := Own(g, last, name).value[0];
      assert IsOwnTarget(g, name, last, t);
      assert KeyOf(t) in KeySet(found);
    }
  }

  /** Every name the enumeration returns resolves to at least one target, when the star-reachable modules are well bound. */
  lemma ExportedNamesResolve(g: Graph, file: Text, name: Text)
    requires forall last | StarReaches(g, name, file, last) && last in g.modules :: WellBound(g, last)
    requires RuntimeExportNames(g, file, {}).Ok? && name in RuntimeExportNames(g, file, {}).value
    requires ResolveExportTargets(g, file, name, {}).Ok?
    ensures ResolveExportTargets(g, file, name, {}).value != []
  {
    hide RuntimeExportNames, ResolveExportTargets, Own, StarReaches, HasSpecifiers, KeyOf, Resolve, EntryNames, LinkNames;
    NamesAreDeclared(g, file, {}, name);
    var last :| StarReaches(g, name, file, last) && Declares(g, last, name);
    FindsSomethingIff(g, file, name);
    ResolvesExactly(g, file, name);
    DeclaredHasTarget(g, last, name);
  }

  /** `m` re-exports `x` from an empty specifier that resolves to `n`: the name is listed, and no look-up finds it. */
  lemma EmptySpecifierIsListedOnly()
    ensures var m, n, x := Ascii("m"), Ascii("n"), Ascii("x");
            var module_ := Module([], {}, [Names([], [Entry(x, x)])], [], map[], {}, []);
            var g := Graph(map[m := module_], map[([], m) := n], {m, n}, {}, {m, n});
            RuntimeExportNames(g, m, {}) == Ok({x}) && ResolveExportTargets(g, m, x, {}) == Ok([])
  {
    var m, n, x := Ascii("m"), Ascii("n"), Ascii("x");
    var links := [Names([], [Entry(x, x)])];
    var module_ := Module([], {}, links, [], map[], {}, []);
    var g := Graph(map[m := module_], map[([], m) := n], {m, n}, {}, {m, n});
    hide Ascii;
    assert g.modules[m] == module_ && links[1..] == [];
    assert NamesOfLink(g, m, {m}, links[0]) == Ok({x}) by { assert EntryNames([Entry(x, x)]) == {x}; }
    assert NamesOfLinks(g, m, {m}, []) == Ok({});
    assert {x} + {} == {x};
    assert NamesOfLinks(g, m, {m}, links) == Ok({x});
    assert {} + {m} == {m} && EntryNames([]) == {} && {} + {} + {x} == {x};
    assert FollowLinks(g, m, x, {} + {(m, x)}, []) == Ok([]);
    assert FollowLinks(g, m, x, {} + {(m, x)}, links) == Append(Ok([]), Ok([]));
    assert TailTargets(g, m, x, module_) == Append(Ok([]), Ok(if x == DEFAULT then [] else []));
    assert Deduplicated([]) == [];
  }
}
