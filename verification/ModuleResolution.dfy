/**
 `resolveExportTargets` and `runtimeExportNames` as they run: recursion with a copied chain,
 each level pushing into its own list or set, an early exit for each error.
 */
module ModuleResolution {
  import opened CodeUnits
  import opened ModuleGraph
  import opened ModuleNames

  lemma AppendStep(pushed: seq<Target>, next: seq<Target>, rest: Result<seq<Target>>)
    ensures Append(Ok(pushed), Append(Ok(next), rest)) == Append(Ok(pushed + next), rest)
  {
    if rest.Ok? {
      assert pushed + (next + rest.value) == (pushed + next) + rest.value;
    }
  }

  lemma AppendNothing(pushed: seq<Target>)
    ensures Append(Ok(pushed), Ok([])) == Ok(pushed)
  {
    assert pushed + [] == pushed;
  }

  /** `unique.set(key, target)` on the list of the map's values. */
  method SetKey(unique: seq<Target>, target: Target) returns (after: seq<Target>)
    ensures after == Upsert(unique, target)
  {
    hide Upsert, KeyOf;
    var k := 0;
    while k < |unique| && KeyOf(unique[k]) != KeyOf(target)
      invariant k <= |unique|
      invariant Upsert(unique, target) == unique[..k] + Upsert(unique[k..], target)
    {
      UpsertFirst(unique[k..], target);
      assert unique[k..][1..] == unique[k + 1..] && unique[..k + 1] == unique[..k] + [unique[k]];
      Grouped(unique[..k], [unique[k]], Upsert(unique[k + 1..], target));
      k := k + 1;
    }
    UpsertFirst(unique[k..], target);
    if k < |unique| {
      assert unique[k..][1..] == unique[k + 1..];
      return unique[..k] + ([target] + unique[k + 1..]);
    }
    assert unique[..k] == unique;
    return unique + [target];
  }

  /** The `Map` of `deduplicateTargets`, as the list of its values. */
  method DeduplicateTargets(targets: seq<Target>) returns (unique: seq<Target>)
    ensures unique == Deduplicated(targets)
  {
    hide Upsert;
    unique := [];
    for i := 0 to |targets|
      invariant unique == Deduplicated(targets[..i])
    {
      assert targets[..i + 1][..i] == targets[..i];
      unique := SetKey(unique, targets[i]);
    }
    assert targets[..|targets|] == targets;
  }

  lemma UpsertFirst(unique: seq<Target>, target: Target)
    ensures Upsert(unique, target) ==
            if unique == [] then [target]
            else if KeyOf(unique[0]) == KeyOf(target) then [target] + unique[1..]
            else [unique[0]] + Upsert(unique[1..], target)
  {
  }

  method PushEntries(g: Graph, file: Text, name: Text, specifier: Text, entries: seq<Entry>) returns (targets: Result<seq<Target>>)
    ensures targets == EntryTargets(g, file, name, specifier, entries)
  {
    hide Append, Ascii, Resolve;
    var pushed: seq<Target> := [];
    AppendEmpty(EntryTargets(g, file, name, specifier, entries));
    for i := 0 to |entries|
      invariant EntryTargets(g, file, name, specifier, entries) == Append(Ok(pushed), EntryTargets(g, file, name, specifier, entries[i..]))
    {
      assert entries[i..][1..] == entries[i + 1..];
      var rest := EntryTargets(g, file, name, specifier, entries[i + 1..]);
      if entries[i].exported != name {
        AppendStep(pushed, [], rest);
        assert pushed + [] == pushed;
        continue;
      }
      var next := Reexport(g, file, specifier, Named([entries[i].imported]), true);
      if next.Throw? {
        AppendThrows(pushed, rest);
        return Throw;
      }
      AppendStep(pushed, next.value, rest);
      pushed := pushed + next.value;
    }
    AppendNothing(pushed);
    return Ok(pushed);
  }

  lemma AppendEmpty(all: Result<seq<Target>>)
    ensures Append(Ok([]), all) == all
  {
    if all.Ok? {
      assert [] + all.value == all.value;
    }
  }

  lemma AppendThrows(pushed: seq<Target>, rest: Result<seq<Target>>)
    ensures Append(Ok(pushed), Append(Throw, rest)) == Throw
  {
  }

  method PushLocals(g: Graph, file: Text, name: Text, m: Module) returns (targets: Result<seq<Target>>)
    ensures targets == LocalTargets(g, file, name, m, m.localExports)
  {
    hide Append, Ascii;
    var entries := m.localExports;
    var pushed: seq<Target> := [];
    AppendEmpty(LocalTargets(g, file, name, m, entries));
    for i := 0 to |entries|
      invariant LocalTargets(g, file, name, m, entries) == Append(Ok(pushed), LocalTargets(g, file, name, m, entries[i..]))
    {
      assert entries[i..][1..] == entries[i + 1..];
      var rest := LocalTargets(g, file, name, m, entries[i + 1..]);
      var next: seq<Target> := [];
      if entries[i].exported == name {
        var local := entries[i].imported;
        if local in m.bindings {
          var resolved := Resolve(g, file, m.bindings[local].specifier);
          if resolved.Some? {
            next := [Target(resolved.value, m.bindings[local].selection)];
          } else if file in g.ui {
            AppendThrows(pushed, rest);
            return Throw;
          }
        } else if local in m.values {
          next := [Target(file, Execute)];
        }
      }
      AppendStep(pushed, next, rest);
      pushed := pushed + next;
    }
    AppendNothing(pushed);
    return Ok(pushed);
  }

  method PushDefaults(g: Graph, file: Text, m: Module) returns (targets: seq<Target>)
    ensures targets == DefaultTargets(g, file, m, m.assignments)
  {
    hide Ascii;
    var all := m.assignments;
    targets := [];
    for i := 0 to |all|
      invariant DefaultTargets(g, file, m, all) == targets + DefaultTargets(g, file, m, all[i..])
    {
      assert all[i..][1..] == all[i + 1..];
      var next := [Target(file, Execute)];
      if all[i].Identifier? && all[i].local in m.bindings {
        var binding := m.bindings[all[i].local];
        var resolved := Resolve(g, file, binding.specifier);
        next := if resolved.Some? then [Target(resolved.value, binding.selection)] else [];
      }
      Grouped(targets, next, DefaultTargets(g, file, m, all[i + 1..]));
      targets := targets + next;
    }
  }

  /** `resolveExportTargets`. */
  method ResolveTargets(g: Graph, file: Text, name: Text, chain: set<(Text, Text)>) returns (targets: Result<seq<Target>>)
    ensures targets == ResolveExportTargets(g, file, name, chain)
    decreases |OffChain(g, name, chain)|, 0
  {
    hide Append, Deduplicated, FollowLinks, TailTargets, OffChain, DefaultTargets, LocalTargets;
    if (file, name) in chain {
      return Ok([]);
    }
    if file !in g.modules {
      return Throw;
    }
    ChainGrows(g, file, name, chain);
    var m := g.modules[file];
    var pushed := if name in m.declared then [Target(file, Execute)] else [];
    var linked := PushLinks(g, file, name, chain + {(file, name)}, m.links);
    var locals := PushLocals(g, file, name, m);
    var defaults: seq<Target> := [];
    if name == DEFAULT {
      defaults := PushDefaults(g, file, m);
    }
    TailOf(g, file, name, m);
    ThrowIsThrow(pushed, linked, locals, defaults);
    if linked.Throw? || locals.Throw? {
      return Throw;
    }
    var unique := DeduplicateTargets(pushed + (linked.value + (locals.value + defaults)));
    return Ok(unique);
  }

  lemma TailOf(g: Graph, file: Text, name: Text, m: Module)
    ensures TailTargets(g, file, name, m) ==
            Append(LocalTargets(g, file, name, m, m.localExports), Ok(if name == DEFAULT then DefaultTargets(g, file, m, m.assignments) else []))
  {
  }

  lemma ThrowIsThrow(pushed: seq<Target>, linked: Result<seq<Target>>, locals: Result<seq<Target>>, defaults: seq<Target>)
    ensures Append(Ok(pushed), Append(linked, Append(locals, Ok(defaults)))) ==
            if linked.Throw? || locals.Throw? then Throw else Ok(pushed + (linked.value + (locals.value + defaults)))
  {
  }

  /** The loop over the export declarations that name a specifier. */
  method PushLinks(g: Graph, file: Text, name: Text, chain: set<(Text, Text)>, links: seq<Link>) returns (targets: Result<seq<Target>>)
    ensures targets == FollowLinks(g, file, name, chain, links)
    decreases |OffChain(g, name, chain)|, 2
  {
    hide Append, Ascii, ResolveExportTargets, OffChain, EntryTargets;
    var pushed: seq<Target> := [];
    AppendEmpty(FollowLinks(g, file, name, chain, links));
    for i := 0 to |links|
      invariant FollowLinks(g, file, name, chain, links) == Append(Ok(pushed), FollowLinks(g, file, name, chain, links[i..]))
    {
      assert links[i..][1..] == links[i + 1..];
      var rest := FollowLinks(g, file, name, chain, links[i + 1..]);
      var next := PushLink(g, file, name, chain, links[i]);
      if next.Throw? {
        AppendThrows(pushed, rest);
        return Throw;
      }
      AppendStep(pushed, next.value, rest);
      pushed := pushed + next.value;
    }
    AppendNothing(pushed);
    return Ok(pushed);
  }

  method PushLink(g: Graph, file: Text, name: Text, chain: set<(Text, Text)>, link: Link) returns (targets: Result<seq<Target>>)
    ensures targets == (var next := StarOf(g, file, name, link);
                        if next.Some? then ResolveExportTargets(g, next.value, name, chain) else LinkTargets(g, file, name, link))
    decreases |OffChain(g, name, chain)|, 1
  {
    hide Ascii, ResolveExportTargets, OffChain, EntryTargets;
    if link.specifier == [] {
      return Ok([]);
    }
    match link
    case Star(specifier) =>
      if name == DEFAULT {
        return Ok([]);
      }
      if specifier == LUCIDE {
        return Ok([Target(file, Execute)]);
      }
      var resolved := Resolve(g, file, specifier);
      if resolved.Some? {
        targets := ResolveTargets(g, resolved.value, name, chain);
      } else {
        targets := if file in g.ui then Throw else Ok([]);
      }
    case Namespace(specifier, exported) =>
      targets := if exported == name then Reexport(g, file, specifier, All, false) else Ok([]);
    case Names(specifier, entries) =>
      targets := PushEntries(g, file, name, specifier, entries);
  }

  /** `runtimeExportNames`, up to the order of the result. */
  method ExportNames(g: Graph, file: Text, chain: set<Text>) returns (names: Result<set<Text>>)
    ensures names == RuntimeExportNames(g, file, chain)
    decreases |FilesOff(g, chain)|
  {
    hide Ascii, NamesOfLink, EntryNames;
    if file in chain {
      return Ok({});
    }
    if file !in g.modules {
      return Throw;
    }
    assert FilesOff(g, chain + {file}) == FilesOff(g, chain) - {file};
    var m := g.modules[file];
    var links, next := m.links, chain + {file};
    var found := m.declared + EntryNames(m.localExports);
    for i := 0 to |links|
      invariant RuntimeExportNames(g, file, chain) == Union(Ok(found), NamesOfLinks(g, file, next, links[i..]))
    {
      assert links[i..][1..] == links[i + 1..];
      NameLink(g, file, next, links[i]);
      UnionNothing(found, NamesOfLinks(g, file, next, links[i + 1..]));
      if links[i].Star? && links[i].specifier == LUCIDE {
        continue;
      }
      var resolved := Resolve(g, file, links[i].specifier);
      if resolved.None? {
        if file in g.ui {
          return Throw;
        }
        continue;
      }
      if links[i].Star? {
        var more := ExportNames(g, resolved.value, next);
        if more.Throw? {
          return Throw;
        }
        UnionStep(found, more.value - {DEFAULT}, NamesOfLinks(g, file, next, links[i + 1..]));
        found := found + (more.value - {DEFAULT});
      } else {
        UnionStep(found, LinkNames(links[i]), NamesOfLinks(g, file, next, links[i + 1..]));
        found := found + LinkNames(links[i]);
      }
    }
    UnionNothing(found, Throw);
    return Ok(found);
  }

  lemma UnionNothing(found: set<Text>, rest: Result<set<Text>>)
    ensures Union(Ok(found), Union(Ok({}), rest)) == Union(Ok(found), rest)
    ensures Union(Ok(found), Ok({})) == Ok(found)
  {
    UnionStep(found, {}, rest);
    assert found + {} == found;
  }

  lemma UnionStep(found: set<Text>, more: set<Text>, rest: Result<set<Text>>)
    ensures Union(Ok(found), Union(Ok(more), rest)) == Union(Ok(found + more), rest)
  {
    if rest.Ok? {
      assert found + (more + rest.value) == (found + more) + rest.value;
    }
  }

  lemma NameLink(g: Graph, file: Text, chain: set<Text>, link: Link)
    ensures NamesOfLink(g, file, chain, link) ==
            if link.Star? && link.specifier == LUCIDE then Ok({})
            else match Resolve(g, file, link.specifier)
              case None => if file in g.ui then Throw else Ok({})
              case Some(target) =>
                if !link.Star? then Ok(LinkNames(link))
                else if RuntimeExportNames(g, target, chain).Throw? then Throw
                else Ok(RuntimeExportNames(g, target, chain).value - {DEFAULT})
  {
  }
}
