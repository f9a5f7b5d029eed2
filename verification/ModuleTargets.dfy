/**
 What a single module contributes to a look-up, as rules without order: which targets it has of
 its own for a name, when looking at it throws, and where an import leads.
 */
module ModuleTargets {
  import opened CodeUnits
  import opened ModuleGraph
  import opened ModuleNames
  import opened ModuleVisit

  // ----- the rules

  /** Where a re-export from `specifier` leads: Lucide stands for the module itself. */
  predicate Leads(g: Graph, file: Text, specifier: Text, selection: Selection, t: Target) {
    if specifier == LUCIDE then t == Target(file, Execute)
    else Resolve(g, file, specifier) == Some(t.file) && t.selection == selection
  }

  ghost predicate LinkGives(g: Graph, file: Text, name: Text, link: Link, t: Target) {
    && link.specifier != []
    && (|| (link.Star? && name != DEFAULT && link.specifier == LUCIDE && t == Target(file, Execute))
        || (link.Namespace? && link.name == name && Leads(g, file, link.specifier, All, t))
        || (link.Names? && exists e :: e in link.entries && e.exported == name && Leads(g, file, link.specifier, Named([e.imported]), t)))
  }

  predicate LocalGives(g: Graph, file: Text, m: Module, local: Text, t: Target) {
    if local in m.bindings then Resolve(g, file, m.bindings[local].specifier) == Some(t.file) && t.selection == m.bindings[local].selection
    else local in m.values && t == Target(file, Execute)
  }

  predicate AssignmentGives(g: Graph, file: Text, m: Module, a: Assignment, t: Target) {
    if a.Identifier? && a.local in m.bindings
    then Resolve(g, file, m.bindings[a.local].specifier) == Some(t.file) && t.selection == m.bindings[a.local].selection
    else t == Target(file, Execute)
  }

  ghost predicate HasTarget(g: Graph, file: Text, name: Text, t: Target) {
    file in g.modules &&
    var m := g.modules[file];
    || (name in m.declared && t == Target(file, Execute))
    || (exists link :: link in m.links && LinkGives(g, file, name, link, t))
    || (exists e :: e in m.localExports && e.exported == name && LocalGives(g, file, m, e.imported, t))
    || (name == DEFAULT && exists a :: a in m.assignments && AssignmentGives(g, file, m, a, t))
  }

  predicate Unresolved(g: Graph, file: Text, specifier: Text) {
    specifier != [] && specifier != LUCIDE && Resolve(g, file, specifier).None?
  }

  ghost predicate LinkBreaks(g: Graph, file: Text, name: Text, link: Link) {
    Unresolved(g, file, link.specifier) &&
    ((link.Star? && name != DEFAULT) || (link.Names? && exists e :: e in link.entries && e.exported == name))
  }

  predicate LocalBreaks(g: Graph, file: Text, m: Module, local: Text) {
    local in m.bindings && Resolve(g, file, m.bindings[local].specifier).None?
  }

  /** Only UI source throws over what does not resolve; a namespace and a default assignment never do. */
  ghost predicate LookUpBreaks(g: Graph, file: Text, name: Text) {
    file !in g.modules ||
    (file in g.ui &&
     var m := g.modules[file];
     || (exists link :: link in m.links && LinkBreaks(g, file, name, link))
     || (exists e :: e in m.localExports && e.exported == name && LocalBreaks(g, file, m, e.imported)))
  }

  // ----- the lists follow the rules

  lemma {:induction false} EntriesAre(g: Graph, file: Text, name: Text, specifier: Text, entries: seq<Entry>)
    ensures var all := EntryTargets(g, file, name, specifier, entries);
            && (all.Throw? <==> file in g.ui && specifier != LUCIDE && Resolve(g, file, specifier).None? && exists e :: e in entries && e.exported == name)
            && (all.Ok? ==> forall t :: t in all.value <==>
                  exists e :: e in entries && e.exported == name && Leads(g, file, specifier, Named([e.imported]), t))
    decreases entries
  {
    hide Ascii, Resolve;
    if entries != [] {
      EntriesAre(g, file, name, specifier, entries[1..]);
      assert forall e :: e in entries <==> e == entries[0] || e in entries[1..];
    }
  }

  lemma LinkIs(g: Graph, file: Text, name: Text, link: Link)
    ensures var own := LinkTargets(g, file, name, link);
            && (own.Throw? <==> file in g.ui && LinkBreaks(g, file, name, link))
            && (own.Ok? ==> forall t :: t in own.value <==> LinkGives(g, file, name, link, t))
  {
    hide Ascii, Resolve, EntryTargets;
    if link.Names? {
      EntriesAre(g, file, name, link.specifier, link.entries);
    }
  }

  lemma {:induction false} LinksAre(g: Graph, file: Text, name: Text, links: seq<Link>)
    ensures var all := OwnLinks(g, file, name, links);
            && (all.Throw? <==> file in g.ui && exists link :: link in links && LinkBreaks(g, file, name, link))
            && (all.Ok? ==> forall t :: t in all.value <==> exists link :: link in links && LinkGives(g, file, name, link, t))
    decreases links
  {
    hide Ascii, LinkTargets, LinkBreaks, LinkGives;
    if links != [] {
      LinkIs(g, file, name, links[0]);
      LinksAre(g, file, name, links[1..]);
      assert forall link :: link in links <==> link == links[0] || link in links[1..];
    }
  }

  lemma {:induction false} LocalsAre(g: Graph, file: Text, name: Text, m: Module, entries: seq<Entry>)
    ensures var all := LocalTargets(g, file, name, m, entries);
            && (all.Throw? <==> file in g.ui && exists e :: e in entries && e.exported == name && LocalBreaks(g, file, m, e.imported))
            && (all.Ok? ==> forall t :: t in all.value <==> exists e :: e in entries && e.exported == name && LocalGives(g, file, m, e.imported, t))
    decreases entries
  {
    hide Ascii, Resolve;
    if entries != [] {
      LocalsAre(g, file, name, m, entries[1..]);
      assert forall e :: e in entries <==> e == entries[0] || e in entries[1..];
    }
  }

  lemma {:induction false} DefaultsAre(g: Graph, file: Text, m: Module, assignments: seq<Assignment>)
    ensures forall t :: t in DefaultTargets(g, file, m, assignments) <==> exists a :: a in assignments && AssignmentGives(g, file, m, a, t)
    decreases assignments
  {
    hide Ascii, Resolve, AssignmentGives, DefaultTargets;
    if assignments == [] {
      assert DefaultTargets(g, file, m, []) == [] by { NoDefaults(g, file, m); }
    } else {
      DefaultIs(g, file, m, assignments);
      DefaultsAre(g, file, m, assignments[1..]);
      assert forall a :: a in assignments <==> a == assignments[0] || a in assignments[1..];
    }
  }

  lemma NoDefaults(g: Graph, file: Text, m: Module)
    ensures DefaultTargets(g, file, m, []) == []
  {
    hide Ascii, Resolve;
  }

  lemma DefaultIs(g: Graph, file: Text, m: Module, assignments: seq<Assignment>)
    requires assignments != []
    ensures forall t :: t in DefaultTargets(g, file, m, assignments)
                   <==> AssignmentGives(g, file, m, assignments[0], t) || t in DefaultTargets(g, file, m, assignments[1..])
  {
    hide Ascii, Resolve;
    var a := assignments[0];
    if a.Identifier? && a.local in m.bindings {
      match Resolve(g, file, m.bindings[a.local].specifier) {
        case Some(target) =>
          var own := Target(target, m.bindings[a.local].selection);
          assert DefaultTargets(g, file, m, assignments) == [own] + DefaultTargets(g, file, m, assignments[1..]);
        case None =>
          assert DefaultTargets(g, file, m, assignments) == [] + DefaultTargets(g, file, m, assignments[1..]);
      }
    } else {
      assert DefaultTargets(g, file, m, assignments) == [Target(file, Execute)] + DefaultTargets(g, file, m, assignments[1..]);
    }
  }

  /** What a module has of its own for a name, and when looking at it throws. */
  lemma OwnIs(g: Graph, file: Text, name: Text)
    ensures var own := Own(g, file, name);
            && (own.Throw? <==> LookUpBreaks(g, file, name))
            && (own.Ok? ==> forall t :: t in own.value <==> HasTarget(g, file, name, t))
  {
    hide Ascii, LinkBreaks, LinkGives, LocalBreaks, LocalGives, AssignmentGives, OwnLinks, LocalTargets, DefaultTargets;
    if file in g.modules {
      var m := g.modules[file];
      OwnParts(g, file, name);
      LinksAre(g, file, name, m.links);
      LocalsAre(g, file, name, m, m.localExports);
      DefaultsAre(g, file, m, m.assignments);
      TailIs(g, file, name, m);
      if Own(g, file, name).Ok? {
        var links, tail := OwnLinks(g, file, name, m.links).value, TailTargets(g, file, name, m).value;
        forall t
          ensures t in Own(g, file, name).value <==> HasTarget(g, file, name, t)
        {
          assert t in tail <==> t in LocalTargets(g, file, name, m, m.localExports).value
                                || (name == DEFAULT && t in DefaultTargets(g, file, m, m.assignments));
        }
      }
    }
  }

  lemma TailIs(g: Graph, file: Text, name: Text, m: Module)
    ensures var tail, locals := TailTargets(g, file, name, m), LocalTargets(g, file, name, m, m.localExports);
            && tail.Throw? == locals.Throw?
            && (tail.Ok? ==> tail.value == locals.value + (if name == DEFAULT then DefaultTargets(g, file, m, m.assignments) else []))
  {
    hide Ascii, LocalTargets, DefaultTargets;
  }

  /**
   The whole look-up by the rules: it throws if and only if some star-reachable module breaks;
   otherwise it finds, by key, exactly what star-reachable modules have.
   */
  lemma LookUpIsExact(g: Graph, file: Text, name: Text)
    ensures var found := ResolveExportTargets(g, file, name, {});
            && (found.Throw? <==> exists last :: StarReaches(g, name, file, last) && LookUpBreaks(g, last, name))
            && (found.Ok? ==>
                  && (forall t | t in found.value :: exists last :: StarReaches(g, name, file, last) && HasTarget(g, last, name, t))
                  && (forall last, t | StarReaches(g, name, file, last) && HasTarget(g, last, name, t) :: KeyOf(t) in KeySet(found.value)))
  {
    hide ResolveExportTargets, StarReaches, LookUpBreaks, HasTarget, KeyOf, Own, Ascii;
    ResolvesExactly(g, file, name);
    var found := ResolveExportTargets(g, file, name, {});
    forall last
      ensures Own(g, last, name).Throw? <==> LookUpBreaks(g, last, name)
      ensures Own(g, last, name).Ok? ==> forall t :: t in Own(g, last, name).value <==> HasTarget(g, last, name, t)
    {
      OwnIs(g, last, name);
    }
    if found.Ok? {
      forall t | t in found.value
        ensures exists last :: StarReaches(g, name, file, last) && HasTarget(g, last, name, t)
      {
        var last :| StarReaches(g, name, file, last) && IsOwnTarget(g, name, last, t);
      }
      forall last, t | StarReaches(g, name, file, last) && HasTarget(g, last, name, t)
        ensures KeyOf(t) in KeySet(found.value)
      {
        assert IsOwnTarget(g, name, last, t);
      }
    }
  }

  /** A star re-export is followed when it resolves, has a specifier other than Lucide's, and the name is not `default`. */
  lemma StarEdgeIs(g: Graph, name: Text, from: Text, onto: Text)
    ensures StarEdge(g, name, from, onto) <==>
            from in g.modules && name != DEFAULT &&
            exists link :: link in g.modules[from].links && link.Star? && link.specifier != [] && link.specifier != LUCIDE
                           && Resolve(g, from, link.specifier) == Some(onto)
  {
    hide Ascii, Resolve;
  }

  // ----- where an import leads

  ghost predicate NamesPublishedUi(specifier: Text) {
    specifier == Ascii("@adea-ai/ui") || exists rest :: specifier == Ascii("@adea-ai/ui") + [0x2F] + rest
  }

  /**
   An import leads to a code file of the workspace or the UI source, and to nothing else; an
   import of the published UI package, or one of a UI source module, must resolve, and the
   former only to UI source.
   */
  lemma ImportLeadsTo(g: Graph, file: Text, d: Import, n: Target)
    ensures var published, resolved := NamesPublishedUi(d.specifier), Resolve(g, file, d.specifier);
            && (ImportNode(g, file, d).Throw? <==>
                  || (resolved.None? && (published || file in g.ui))
                  || (resolved.Some? && resolved.value in g.code && resolved.value !in g.ui && published))
            && (ImportNode(g, file, d) == Ok(Some(n)) <==>
                  && resolved == Some(n.file) && n.selection == d.selection
                  && n.file in g.code && (n.file in g.ui || (n.file in g.workspace && !published)))
  {
    hide Ascii, Resolve;
    PublishedIs(d.specifier);
  }

  lemma PublishedIs(specifier: Text)
    ensures IsPublished(specifier) <==> NamesPublishedUi(specifier)
  {
    hide Ascii;
    var head := PUBLISHED + [0x2F];
    if head <= specifier {
      assert specifier == head + specifier[|head|..];
    }
  }
}
