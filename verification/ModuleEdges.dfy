/**
 The graph that is walked, by rules alone: where a module with a selection leads and when
 visiting it throws, in terms of what modules export, re-export and import.
 */
module ModuleEdges {
  import opened CodeUnits
  import opened ModuleGraph
  import opened ModuleNames
  import opened ModuleTargets
  import opened ModuleEnumeration
  import opened ModuleVisit

  /** A module that `file` re-exports all of, or itself, exports the name; `default` only itself. */
  ghost predicate IsListed(g: Graph, file: Text, name: Text) {
    exists last :: ListReaches(g, file, last) && Exports(g, last, name) && (name == DEFAULT ==> last == file)
  }

  /** The names a node asks for: those of its selection, or all that are listed, or none. */
  ghost predicate Wants(g: Graph, n: Target, name: Text) {
    (n.selection.Named? && name in n.selection.names) || (n.selection.All? && IsListed(g, n.file, name))
  }

  ghost predicate ListBreaks(g: Graph, file: Text) {
    exists last :: ListReaches(g, file, last) && Breaks(g, last)
  }

  /** The import does not resolve where it has to, or one of the published package leads out of the UI source. */
  ghost predicate ImportBreaks(g: Graph, file: Text, d: Import) {
    var published, resolved := NamesPublishedUi(d.specifier), Resolve(g, file, d.specifier);
    || (resolved.None? && (published || file in g.ui))
    || (resolved.Some? && resolved.value in g.code && resolved.value !in g.ui && published)
  }

  /** Looking the name up throws, or finds nothing. */
  ghost predicate NameFails(g: Graph, file: Text, name: Text) {
    || (exists last :: StarReaches(g, name, file, last) && LookUpBreaks(g, last, name))
    || !exists last, t :: StarReaches(g, name, file, last) && HasTarget(g, last, name, t)
  }

  ghost predicate FailsByRule(g: Graph, n: Target) {
    || n.file !in g.modules
    || (exists d :: d in g.modules[n.file].imports && ImportBreaks(g, n.file, d))
    || (n.selection.All? && ListBreaks(g, n.file))
    || (exists name :: Wants(g, n, name) && NameFails(g, n.file, name))
  }

  lemma WantedIs(g: Graph, n: Target)
    ensures WantedNames(g, n).Throw? <==> n.selection.All? && ListBreaks(g, n.file)
    ensures WantedNames(g, n).Ok? ==> forall name :: name in WantedNames(g, n).value <==> Wants(g, n, name)
  {
    hide RuntimeExportNames, ListReaches, Breaks, Exports;
    EnumeratesExactly(g, n.file);
  }

  lemma NameIs(g: Graph, n: Target, name: Text)
    ensures TargetsOf(g, n, name).Throw? || TargetsOf(g, n, name).value == [] <==> NameFails(g, n.file, name)
  {
    hide ResolveExportTargets, StarReaches, LookUpBreaks, HasTarget, KeyOf, Ascii;
    LookUpIsExact(g, n.file, name);
    var found := TargetsOf(g, n, name);
    if found.Ok? && found.value != [] {
      assert found.value[0] in found.value;
    }
    if found.Ok? && found.value == [] {
      assert KeySet(found.value) == {};
    }
  }

  lemma ImportsAre(g: Graph, n: Target)
    requires n.file in g.modules
    ensures (exists d :: d in g.modules[n.file].imports && ImportNode(g, n.file, d).Throw?)
       <==> (exists d :: d in g.modules[n.file].imports && ImportBreaks(g, n.file, d))
  {
    hide ImportNode, ImportBreaks;
    forall d | d in g.modules[n.file].imports
      ensures ImportNode(g, n.file, d).Throw? <==> ImportBreaks(g, n.file, d)
    {
      ImportIs(g, n.file, d);
    }
  }

  lemma ImportIs(g: Graph, file: Text, d: Import)
    ensures ImportNode(g, file, d).Throw? <==> ImportBreaks(g, file, d)
  {
    hide ImportNode, Resolve, NamesPublishedUi;
    ImportLeadsTo(g, file, d, Target(file, Execute));
  }

  /** Visiting a node throws exactly by these rules. */
  lemma FailsIs(g: Graph, n: Target)
    ensures Fails(g, n) <==> FailsByRule(g, n)
  {
    hide WantedNames, Wants, TargetsOf, NameFails, ImportNode, ImportBreaks, ListBreaks;
    WantedIs(g, n);
    if n.file in g.modules {
      ImportsAre(g, n);
    }
    forall name
      ensures TargetsOf(g, n, name).Throw? || TargetsOf(g, n, name).value == [] <==> NameFails(g, n.file, name)
    {
      NameIs(g, n, name);
    }
  }

  /** `m` is what a wanted name leads to, in a module that is star-reachable for it. */
  ghost predicate LeadsByName(g: Graph, n: Target, m: Target) {
    exists name, last :: Wants(g, n, name) && StarReaches(g, name, n.file, last) && HasTarget(g, last, name, m)
  }

  /** `m` is where an import leads: a code file of the workspace or the UI source, in the selection of the import. */
  ghost predicate LeadsByImport(g: Graph, n: Target, m: Target) {
    n.file in g.modules && exists d :: d in g.modules[n.file].imports && ImportGives(g, n.file, d, m)
  }

  ghost predicate ImportGives(g: Graph, file: Text, d: Import, m: Target) {
    && Resolve(g, file, d.specifier) == Some(m.file) && m.selection == d.selection
    && m.file in g.code && (m.file in g.ui || (m.file in g.workspace && !NamesPublishedUi(d.specifier)))
  }

  /** Where a node leads that does not fail: exactly by its imports, and by its names exactly up to the key. */
  lemma EdgesAre(g: Graph, n: Target, m: Target)
    requires !Fails(g, n)
    ensures HasImport(g, n, m) <==> LeadsByImport(g, n, m)
    ensures HasExport(g, n, m) ==> LeadsByName(g, n, m)
    ensures LeadsByName(g, n, m) ==> exists t :: HasExport(g, n, t) && KeyOf(t) == KeyOf(m)
  {
    hide WantedNames, Wants, StarReaches, HasTarget, KeyOf, ImportNode, ImportGives, Ascii, ResolveExportTargets, LookUpBreaks, ListBreaks;
    WantedIs(g, n);
    forall d | d in g.modules[n.file].imports
      ensures ImportNode(g, n.file, d) == Ok(Some(m)) <==> ImportGives(g, n.file, d, m)
    {
      ImportEdgeIs(g, n.file, d, m);
    }
    if HasExport(g, n, m) {
      var name :| name in WantedNames(g, n).value && TargetsOf(g, n, name).Ok? && m in TargetsOf(g, n, name).value;
      LookUpIsExact(g, n.file, name);
    }
    if LeadsByName(g, n, m) {
      var name, last :| Wants(g, n, name) && StarReaches(g, name, n.file, last) && HasTarget(g, last, name, m);
      LookUpIsExact(g, n.file, name);
      var found := TargetsOf(g, n, name).value;
      assert KeyOf(m) in KeySet(found);
      var t :| t in found && KeyOf(t) == KeyOf(m);
      assert HasExport(g, n, t);
    }
  }

  lemma ImportEdgeIs(g: Graph, file: Text, d: Import, m: Target)
    ensures ImportNode(g, file, d) == Ok(Some(m)) <==> ImportGives(g, file, d, m)
  {
    hide ImportNode, Resolve, NamesPublishedUi;
    ImportLeadsTo(g, file, d, m);
  }
}
