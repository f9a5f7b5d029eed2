/**
 Exactly which names a module enumerates, and exactly when the enumeration throws, on every
 graph: cutting cycles by the path loses no name and hides no error.
 */
module ModuleEnumeration {
  import opened CodeUnits
  import opened ModuleGraph
  import opened ModuleNames

  /** `from` re-exports all of `onto`. */
  ghost predicate ListEdge(g: Graph, from: Text, onto: Text) {
    from in g.modules &&
    exists link :: link in g.modules[from].links && link.Star? && link.specifier != LUCIDE && Resolve(g, from, link.specifier) == Some(onto)
  }

  ghost predicate IsListPath(g: Graph, path: seq<Text>) {
    path != [] && forall i | 0 <= i < |path| - 1 :: ListEdge(g, path[i], path[i + 1])
  }

  ghost predicate ListReaches(g: Graph, first: Text, last: Text) {
    exists path :: IsListPath(g, path) && path[0] == first && path[|path| - 1] == last
  }

  /** The module's own list or declaration exports the name, or a re-export by name whose specifier resolves. */
  ghost predicate Exports(g: Graph, file: Text, name: Text) {
    file in g.modules &&
    var m := g.modules[file];
    || name in m.declared
    || (exists e :: e in m.localExports && e.exported == name)
    || (exists link :: link in m.links && link.Namespace? && link.name == name && Resolve(g, file, link.specifier).Some?)
    || (exists link, e :: link in m.links && link.Names? && e in link.entries && e.exported == name && Resolve(g, file, link.specifier).Some?)
  }

  /** The module cannot be read, or, being UI source, re-exports from a specifier that does not resolve. */
  ghost predicate Breaks(g: Graph, file: Text) {
    || file !in g.modules
    || (file in g.ui && exists link :: link in g.modules[file].links && !(link.Star? && link.specifier == LUCIDE)
                                       && Resolve(g, file, link.specifier).None?)
  }

  lemma ExportsIsDeclares(g: Graph, file: Text, name: Text)
    ensures Exports(g, file, name) <==> Declares(g, file, name)
  {
    hide Resolve, Ascii;
    if file in g.modules {
      var m := g.modules[file];
      forall link | link in m.links && !link.Star?
        ensures name in LinkNames(link) <==> (link.Namespace? && link.name == name) || (link.Names? && exists e :: e in link.entries && e.exported == name)
      {
      }
    }
  }

  lemma ListsSelf(g: Graph, file: Text)
    ensures ListReaches(g, file, file)
  {
    assert IsListPath(g, [file]);
  }

  lemma ListsOn(g: Graph, file: Text, next: Text, last: Text)
    requires ListEdge(g, file, next) && ListReaches(g, next, last)
    ensures ListReaches(g, file, last)
  {
    hide ListEdge;
    var path :| IsListPath(g, path) && path[0] == next && path[|path| - 1] == last;
    var longer := [file] + path;
    forall i | 0 <= i < |longer| - 1
      ensures ListEdge(g, longer[i], longer[i + 1])
    {
      if i > 0 {
        assert longer[i] == path[i - 1] && longer[i + 1] == path[i];
      }
    }
    assert IsListPath(g, longer);
  }

  /** Loops can be cut out of a path. */
  lemma {:induction false} SimpleListPath(g: Graph, path: seq<Text>) returns (simple: seq<Text>)
    requires IsListPath(g, path)
    ensures IsListPath(g, simple) && IsSimple(simple)
    ensures simple[0] == path[0] && simple[|simple| - 1] == path[|path| - 1]
    decreases |path|
  {
    hide ListEdge;
    if IsSimple(path) {
      simple := path;
    } else {
      var i, j :| 0 <= i < j < |path| && path[i] == path[j];
      var cut := path[..i] + path[j..];
      forall k | 0 <= k < |cut| - 1
        ensures ListEdge(g, cut[k], cut[k + 1])
      {
        if k < i - 1 {
          assert cut[k] == path[k] && cut[k + 1] == path[k + 1];
        } else if k == i - 1 {
          assert cut[k] == path[k] && cut[k + 1] == path[j] == path[k + 1];
        } else {
          assert cut[k] == path[k - i + j] && cut[k + 1] == path[k - i + j + 1];
        }
      }
      simple := SimpleListPath(g, cut);
    }
  }

  // ----- what comes out is exported somewhere, and an error is somebody's

  lemma {:induction false} NamesComeFrom(g: Graph, file: Text, chain: set<Text>, name: Text)
    requires RuntimeExportNames(g, file, chain).Ok? && name in RuntimeExportNames(g, file, chain).value
    ensures exists last :: ListReaches(g, file, last) && Declares(g, last, name) && (name == DEFAULT ==> last == file)
    decreases |FilesOff(g, chain)|
  {
    hide ListReaches, NamesOfLinks, EntryNames, LinkNames, Resolve, Ascii;
    var m := g.modules[file];
    ListsSelf(g, file);
    if name !in m.declared && name !in EntryNames(m.localExports) {
      var link := LinkOfName(g, file, chain + {file}, m.links, name);
      if link.Star? {
        assert FilesOff(g, chain + {file}) == FilesOff(g, chain) - {file};
        var next := Resolve(g, file, link.specifier).value;
        assert ListEdge(g, file, next);
        NamesComeFrom(g, next, chain + {file}, name);
        var last :| ListReaches(g, next, last) && Declares(g, last, name);
        ListsOn(g, file, next, last);
      } else {
        assert Declares(g, file, name);
      }
    } else {
      assert Declares(g, file, name);
    }
  }

  lemma {:induction false} LinkOfThrow(g: Graph, file: Text, chain: set<Text>, links: seq<Link>) returns (link: Link)
    requires NamesOfLinks(g, file, chain, links).Throw?
    ensures link in links && NamesOfLink(g, file, chain, link).Throw?
    decreases links
  {
    hide NamesOfLink;
    if NamesOfLink(g, file, chain, links[0]).Throw? {
      link := links[0];
    } else {
      link := LinkOfThrow(g, file, chain, links[1..]);
    }
  }

  lemma {:induction false} ThrowComesFrom(g: Graph, file: Text, chain: set<Text>)
    requires RuntimeExportNames(g, file, chain).Throw?
    ensures exists last :: ListReaches(g, file, last) && Breaks(g, last)
    decreases |FilesOff(g, chain)|
  {
    hide ListReaches, NamesOfLinks, EntryNames, LinkNames, Resolve, Ascii;
    ListsSelf(g, file);
    if file in g.modules {
      var m := g.modules[file];
      var link := LinkOfThrow(g, file, chain + {file}, m.links);
      if Resolve(g, file, link.specifier).Some? {
        assert FilesOff(g, chain + {file}) == FilesOff(g, chain) - {file};
        var next := Resolve(g, file, link.specifier).value;
        assert ListEdge(g, file, next);
        ThrowComesFrom(g, next, chain + {file});
        var last :| ListReaches(g, next, last) && Breaks(g, last);
        ListsOn(g, file, next, last);
      }
    }
  }

  // ----- what is exported somewhere comes out, and every error surfaces

  lemma {:induction false} LinkIsListed(g: Graph, file: Text, chain: set<Text>, links: seq<Link>, link: Link)
    requires link in links
    ensures NamesOfLink(g, file, chain, link).Throw? ==> NamesOfLinks(g, file, chain, links).Throw?
    ensures NamesOfLinks(g, file, chain, links).Ok? ==> NamesOfLink(g, file, chain, link).value <= NamesOfLinks(g, file, chain, links).value
    decreases links
  {
    hide NamesOfLink;
    if link != links[0] {
      LinkIsListed(g, file, chain, links[1..], link);
    }
  }

  /** At the end of a path that stays off the chain. */
  lemma OwnIsListed(g: Graph, file: Text, chain: set<Text>, name: Text)
    requires file !in chain
    ensures Breaks(g, file) ==> RuntimeExportNames(g, file, chain).Throw?
    ensures RuntimeExportNames(g, file, chain).Ok? && Declares(g, file, name) ==> name in RuntimeExportNames(g, file, chain).value
  {
    hide NamesOfLinks, EntryNames, LinkNames, Resolve, Ascii;
    if file in g.modules {
      var links := g.modules[file].links;
      forall link | link in links
        ensures NamesOfLink(g, file, chain + {file}, link).Throw? ==> NamesOfLinks(g, file, chain + {file}, links).Throw?
        ensures NamesOfLinks(g, file, chain + {file}, links).Ok? ==>
                  NamesOfLink(g, file, chain + {file}, link).value <= NamesOfLinks(g, file, chain + {file}, links).value
      {
        LinkIsListed(g, file, chain + {file}, links, link);
      }
    }
  }

  /** Along a simple path off the chain nothing is cut away: the end's names and its errors arrive. */
  lemma {:induction false} PathIsListed(g: Graph, chain: set<Text>, path: seq<Text>, name: Text)
    requires IsListPath(g, path) && IsSimple(path) && forall k | 0 <= k < |path| :: path[k] !in chain
    ensures var names, last := RuntimeExportNames(g, path[0], chain), path[|path| - 1];
            && (Breaks(g, last) ==> names.Throw?)
            && (names.Ok? && Declares(g, last, name) && (name == DEFAULT ==> |path| == 1) ==> name in names.value)
    decreases |path|
  {
    hide ListEdge, NamesOfLinks, EntryNames, LinkNames, Resolve, Ascii, Breaks, Declares;
    if |path| == 1 {
      OwnIsListed(g, path[0], chain, name);
    } else {
      var file, rest := path[0], path[1..];
      TailOfPath(g, path);
      forall k | 0 <= k < |rest|
        ensures rest[k] !in chain + {file}
      {
        assert rest[k] == path[k + 1];
      }
      PathIsListed(g, chain + {file}, rest, name);
      assert ListEdge(g, path[0], path[0 + 1]);
      StarIsListed(g, file, rest[0], chain, name);
    }
  }

  lemma TailOfPath(g: Graph, path: seq<Text>)
    requires IsListPath(g, path) && IsSimple(path) && |path| > 1
    ensures IsListPath(g, path[1..]) && IsSimple(path[1..]) && path[1..][|path| - 2] == path[|path| - 1]
  {
    hide ListEdge;
    var rest := path[1..];
    forall i | 0 <= i < |rest| - 1
      ensures ListEdge(g, rest[i], rest[i + 1])
    {
      assert rest[i] == path[i + 1] && rest[i + 1] == path[i + 1 + 1];
    }
  }

  lemma StarIsListed(g: Graph, file: Text, next: Text, chain: set<Text>, name: Text)
    requires ListEdge(g, file, next) && file !in chain
    ensures var names, more := RuntimeExportNames(g, file, chain), RuntimeExportNames(g, next, chain + {file});
            && (more.Throw? ==> names.Throw?)
            && (names.Ok? && name != DEFAULT && name in more.value ==> name in names.value)
  {
    hide NamesOfLinks, EntryNames, LinkNames, Resolve, Ascii;
    var links := g.modules[file].links;
    var link :| link in links && link.Star? && link.specifier != LUCIDE && Resolve(g, file, link.specifier) == Some(next);
    LinkIsListed(g, file, chain + {file}, links, link);
  }

  /**
   On every graph: the enumeration throws if and only if a module that `file` re-exports all
   of, directly or through others, cannot be read or has an unresolved re-export of its own;
   otherwise it lists exactly the names those modules export, `default` only of `file` itself.
   */
  lemma EnumeratesExactly(g: Graph, file: Text)
    ensures var names := RuntimeExportNames(g, file, {});
            && (names.Throw? <==> exists last :: ListReaches(g, file, last) && Breaks(g, last))
            && (names.Ok? ==> forall name ::
                  name in names.value <==> exists last :: ListReaches(g, file, last) && Exports(g, last, name) && (name == DEFAULT ==> last == file))
  {
    hide RuntimeExportNames, ListReaches, Breaks, Exports, Declares, Ascii;
    var names := RuntimeExportNames(g, file, {});
    if names.Throw? {
      ThrowComesFrom(g, file, {});
    }
    forall last | ListReaches(g, file, last) && Breaks(g, last)
      ensures names.Throw?
    {
      ReachedIsListed(g, file, last, []);
    }
    if names.Ok? {
      forall name
        ensures name in names.value <==>
                exists last :: ListReaches(g, file, last) && Exports(g, last, name) && (name == DEFAULT ==> last == file)
      {
        if name in names.value {
          NamesComeFrom(g, file, {}, name);
          var last :| ListReaches(g, file, last) && Declares(g, last, name) && (name == DEFAULT ==> last == file);
          ExportsIsDeclares(g, last, name);
        }
        forall last | ListReaches(g, file, last) && Exports(g, last, name) && (name == DEFAULT ==> last == file)
          ensures name in names.value
        {
          ExportsIsDeclares(g, last, name);
          ReachedIsListed(g, file, last, name);
        }
      }
    }
  }

  lemma ReachedIsListed(g: Graph, file: Text, last: Text, name: Text)
    requires ListReaches(g, file, last)
    ensures var names := RuntimeExportNames(g, file, {});
            && (Breaks(g, last) ==> names.Throw?)
            && (names.Ok? && Declares(g, last, name) && (name == DEFAULT ==> last == file) ==> name in names.value)
  {
    hide RuntimeExportNames, Breaks, Declares, Ascii, ListEdge;
    var path :| IsListPath(g, path) && path[0] == file && path[|path| - 1] == last;
    var simple := SimpleListPath(g, path);
    PathIsListed(g, {}, simple, name);
    if last == file {
      assert IsListPath(g, [file]) && IsSimple([file]);
      PathIsListed(g, {}, [file], name);
    }
  }
}
