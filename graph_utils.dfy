/**
 * The graph utilities the design editor uses to offer only edges that keep the
 * effect graph free of cycles: for a chosen target, the names that may become
 * its source; for a chosen source, the names that may become its target.
 *
 * Each query builds a source -> targets adjacency map from the current effects
 * and asks a breadth-first search whether a path already exists that the new
 * edge would close into a cycle.
 */
module GraphUtils {
  import opened StudyModel
  import opened Digraph

  /** The graph of all effects, dangling ones included: one edge per effect. */
  ghost function EffectGraph(effects: seq<Effect>): Graph {
    set e | e in effects :: (e.source, e.target)
  }

  lemma EffectGraphAppend(effects: seq<Effect>, e: Effect)
    ensures EffectGraph(effects + [e]) == EffectGraph(effects) + {(e.source, e.target)}
  {
    assert forall x :: x in effects + [e] <==> x in effects || x == e;
  }

  /** The targets of `u`'s outgoing effects, in effect order. */
  function TargetsOf(effects: seq<Effect>, u: string): seq<string>
    decreases |effects|
  {
    if effects == [] then []
    else
      var last := effects[|effects| - 1];
      TargetsOf(effects[..|effects| - 1], u) + (if last.source == u then [last.target] else [])
  }

  // ---------------------------------------------------------------------------
  // Building the adjacency map
  // ---------------------------------------------------------------------------

  /** One pass over the effects, appending each target to its source's list (created on first use). */
  method BuildAdjacency(effects: seq<Effect>) returns (adj: map<string, seq<string>>)
    ensures forall u :: Neighbors(adj, u) == TargetsOf(effects, u)
    ensures AdjEdges(adj) == EffectGraph(effects)
  {
    adj := map[];
    for i := 0 to |effects|
      invariant forall u :: Neighbors(adj, u) == TargetsOf(effects[..i], u)
      invariant AdjEdges(adj) == EffectGraph(effects[..i])
    {
      var eff := effects[i];
      assert effects[..i + 1] == effects[..i] + [eff];
      assert effects[..i + 1][..i] == effects[..i];
      AdjEdgesAppend(adj, eff.source, eff.target);
      EffectGraphAppend(effects[..i], eff);
      adj := adj[eff.source := Neighbors(adj, eff.source) + [eff.target]];
    }
    assert effects[..|effects|] == effects;
  }

  // ---------------------------------------------------------------------------
  // Breadth-first search
  // ---------------------------------------------------------------------------

  /** Whether `end` can be reached from `start` along the map's edges. Each name is
      expanded at most once, so the search ends: either the set of names still to
      expand shrinks, or it stays and the queue gets shorter. */
  method PathExists(adj: map<string, seq<string>>, start: string, end: string) returns (found: bool)
    ensures found <==> Reachable(AdjEdges(adj), start, end)
  {
    ghost var g := AdjEdges(adj);
    if start == end {
      ReachableSelf(g, start);
      return true;
    }
    ghost var nodes := AdjNodes(adj) + {start};
    var queue := [start];
    var visited: set<string> := {};
    ReachableSelf(g, start);
    while |queue| > 0
      invariant visited <= nodes
      invariant forall x :: x in queue ==> x in nodes && Reachable(g, start, x)
      invariant forall x :: x in visited ==> Reachable(g, start, x)
      invariant start in visited || start in queue
      invariant end !in visited
      invariant forall u, v :: u in visited && Edge(g, u, v) ==> v in visited || v in queue
      decreases nodes - visited, |queue|
    {
      var current := queue[0];
      queue := queue[1..];
      if current == end {
        return true;
      }
      if current !in visited {
        visited := visited + {current};
        var neighbors := Neighbors(adj, current);
        ghost var waiting := queue;
        for k := 0 to |neighbors|
          invariant forall x :: x in queue ==> x in nodes && Reachable(g, start, x)
          invariant forall x :: x in waiting ==> x in queue
          invariant forall j :: 0 <= j < k ==> neighbors[j] in visited || neighbors[j] in queue
        {
          var neighbor := neighbors[k];
          AdjEdgesMeaning(adj, current, neighbor);
          NeighborInAdjNodes(adj, current, neighbor);
          ReachableStep(g, start, current, neighbor);
          if neighbor !in visited {
            queue := queue + [neighbor];
          }
        }
        forall v | Edge(g, current, v)
          ensures v in visited || v in queue
        {
          AdjEdgesMeaning(adj, current, v);
        }
      }
    }
    if Reachable(g, start, end) {
      ClosedSetContainsReachable(g, visited, start, end);
    }
    return false;
  }

  // ---------------------------------------------------------------------------
  // Specification of the two queries
  // ---------------------------------------------------------------------------

  /** `c` may become a source of `t`: not `t` itself, and no path `t ->* c` to close. */
  ghost predicate CanBeSource(g: Graph, t: string, c: string) {
    c != t && !Reachable(g, t, c)
  }

  /** `c` may become a target of `s`: not `s` itself, and no path `c ->* s` to close. */
  ghost predicate CanBeTarget(g: Graph, s: string, c: string) {
    c != s && !Reachable(g, c, s)
  }

  /** The names that may be sources of `t`, in their original order. */
  ghost function SourcesFor(g: Graph, t: string, names: seq<string>): seq<string>
    decreases |names|
  {
    if names == [] then []
    else
      var c := names[|names| - 1];
      SourcesFor(g, t, names[..|names| - 1]) + (if CanBeSource(g, t, c) then [c] else [])
  }

  /** The names that may be targets of `s`, in their original order. */
  ghost function TargetsFor(g: Graph, s: string, names: seq<string>): seq<string>
    decreases |names|
  {
    if names == [] then []
    else
      var c := names[|names| - 1];
      TargetsFor(g, s, names[..|names| - 1]) + (if CanBeTarget(g, s, c) then [c] else [])
  }

  /** `getAvailableSources`: with no target chosen, every name is offered. */
  ghost function AvailableSources(targetName: string, allNodeNames: seq<string>, effects: seq<Effect>): seq<string> {
    if targetName == "" then allNodeNames else SourcesFor(EffectGraph(effects), targetName, allNodeNames)
  }

  /** `getAvailableTargets`: with no source chosen, every name is offered. */
  ghost function AvailableTargets(sourceName: string, allNodeNames: seq<string>, effects: seq<Effect>): seq<string> {
    if sourceName == "" then allNodeNames else TargetsFor(EffectGraph(effects), sourceName, allNodeNames)
  }

  // ---------------------------------------------------------------------------
  // The two queries
  // ---------------------------------------------------------------------------

  method GetAvailableSources(targetName: string, allNodeNames: seq<string>, existingEffects: seq<Effect>)
    returns (r: seq<string>)
    ensures targetName == "" ==> r == allNodeNames
    ensures r == AvailableSources(targetName, allNodeNames, existingEffects)
  {
    if targetName == "" {
      return allNodeNames;
    }
    ghost var g := EffectGraph(existingEffects);
    var adj := BuildAdjacency(existingEffects);
    r := [];
    for i := 0 to |allNodeNames|
      invariant r == SourcesFor(g, targetName, allNodeNames[..i])
    {
      var candidateName := allNodeNames[i];
      assert allNodeNames[..i + 1][..i] == allNodeNames[..i];
      if candidateName != targetName {
        // an existing path targetName ->* candidateName would close into a cycle
        var closes := PathExists(adj, targetName, candidateName);
        if !closes {
          r := r + [candidateName];
        }
      }
    }
    assert allNodeNames[..|allNodeNames|] == allNodeNames;
  }

  method GetAvailableTargets(sourceName: string, allNodeNames: seq<string>, existingEffects: seq<Effect>)
    returns (r: seq<string>)
    ensures sourceName == "" ==> r == allNodeNames
    ensures r == AvailableTargets(sourceName, allNodeNames, existingEffects)
  {
    if sourceName == "" {
      return allNodeNames;
    }
    ghost var g := EffectGraph(existingEffects);
    var adj := BuildAdjacency(existingEffects);
    r := [];
    for i := 0 to |allNodeNames|
      invariant r == TargetsFor(g, sourceName, allNodeNames[..i])
    {
      var candidateName := allNodeNames[i];
      assert allNodeNames[..i + 1][..i] == allNodeNames[..i];
      if candidateName != sourceName {
        // an existing path candidateName ->* sourceName would close into a cycle
        var closes := PathExists(adj, candidateName, sourceName);
        if !closes {
          r := r + [candidateName];
        }
      }
    }
    assert allNodeNames[..|allNodeNames|] == allNodeNames;
  }

  // ---------------------------------------------------------------------------
  // Properties
  // ---------------------------------------------------------------------------

  lemma {:induction false} SourcesForMembers(g: Graph, t: string, names: seq<string>, c: string)
    ensures c in SourcesFor(g, t, names) <==> c in names && CanBeSource(g, t, c)
    decreases |names|
  {
    if names != [] {
      var init := names[..|names| - 1];
      SourcesForMembers(g, t, init, c);
      assert names == init + [names[|names| - 1]];
    }
  }

  lemma {:induction false} TargetsForMembers(g: Graph, s: string, names: seq<string>, c: string)
    ensures c in TargetsFor(g, s, names) <==> c in names && CanBeTarget(g, s, c)
    decreases |names|
  {
    if names != [] {
      var init := names[..|names| - 1];
      TargetsForMembers(g, s, init, c);
      assert names == init + [names[|names| - 1]];
    }
  }

  /** The sources offered for a chosen target are exactly the other names not reachable from it. */
  lemma AvailableSourcesMembers(targetName: string, allNodeNames: seq<string>, effects: seq<Effect>, c: string)
    requires targetName != ""
    ensures c in AvailableSources(targetName, allNodeNames, effects) <==>
      c in allNodeNames && c != targetName && !Reachable(EffectGraph(effects), targetName, c)
  {
    SourcesForMembers(EffectGraph(effects), targetName, allNodeNames, c);
  }

  /** The targets offered for a chosen source are exactly the other names that do not reach it. */
  lemma AvailableTargetsMembers(sourceName: string, allNodeNames: seq<string>, effects: seq<Effect>, c: string)
    requires sourceName != ""
    ensures c in AvailableTargets(sourceName, allNodeNames, effects) <==>
      c in allNodeNames && c != sourceName && !Reachable(EffectGraph(effects), c, sourceName)
  {
    TargetsForMembers(EffectGraph(effects), sourceName, allNodeNames, c);
  }

  /** Adding an offered source as a new effect `c -> t` keeps an acyclic effect graph acyclic. */
  lemma AvailableSourceKeepsAcyclic(targetName: string, allNodeNames: seq<string>, effects: seq<Effect>, e: Effect)
    requires targetName != ""
    requires Acyclic(EffectGraph(effects))
    requires e.target == targetName && e.source in AvailableSources(targetName, allNodeNames, effects)
    ensures Acyclic(EffectGraph(effects + [e]))
  {
    AvailableSourcesMembers(targetName, allNodeNames, effects, e.source);
    EffectGraphAppend(effects, e);
    AddEdgeKeepsAcyclic(EffectGraph(effects), e.source, e.target);
  }

  /** Adding an offered target as a new effect `s -> c` keeps an acyclic effect graph acyclic. */
  lemma AvailableTargetKeepsAcyclic(sourceName: string, allNodeNames: seq<string>, effects: seq<Effect>, e: Effect)
    requires sourceName != ""
    requires Acyclic(EffectGraph(effects))
    requires e.source == sourceName && e.target in AvailableTargets(sourceName, allNodeNames, effects)
    ensures Acyclic(EffectGraph(effects + [e]))
  {
    AvailableTargetsMembers(sourceName, allNodeNames, effects, e.target);
    EffectGraphAppend(effects, e);
    AddEdgeKeepsAcyclic(EffectGraph(effects), e.source, e.target);
  }

  /** A name that is withheld as a source (for a reason other than being the target) would close a cycle. */
  lemma WithheldSourceClosesCycle(targetName: string, allNodeNames: seq<string>, effects: seq<Effect>, e: Effect)
    requires targetName != ""
    requires e.target == targetName && e.source != targetName
    requires e.source in allNodeNames && e.source !in AvailableSources(targetName, allNodeNames, effects)
    ensures !Acyclic(EffectGraph(effects + [e]))
  {
    AvailableSourcesMembers(targetName, allNodeNames, effects, e.source);
    EffectGraphAppend(effects, e);
    PathThenEdgeIsCycle(EffectGraph(effects), e.source, e.target);
  }

  /** A name that is withheld as a target (for a reason other than being the source) would close a cycle. */
  lemma WithheldTargetClosesCycle(sourceName: string, allNodeNames: seq<string>, effects: seq<Effect>, e: Effect)
    requires sourceName != ""
    requires e.source == sourceName && e.target != sourceName
    requires e.target in allNodeNames && e.target !in AvailableTargets(sourceName, allNodeNames, effects)
    ensures !Acyclic(EffectGraph(effects + [e]))
  {
    AvailableTargetsMembers(sourceName, allNodeNames, effects, e.target);
    EffectGraphAppend(effects, e);
    PathThenEdgeIsCycle(EffectGraph(effects), e.source, e.target);
  }

  /** The two queries agree: `t` is offered as a target of `s` exactly when `s` is offered as a source of `t`. */
  lemma SourcesTargetsDuality(s: string, t: string, allNodeNames: seq<string>, effects: seq<Effect>)
    requires s != "" && t != ""
    requires s in allNodeNames && t in allNodeNames
    ensures t in AvailableTargets(s, allNodeNames, effects) <==> s in AvailableSources(t, allNodeNames, effects)
  {
    AvailableTargetsMembers(s, allNodeNames, effects, t);
    AvailableSourcesMembers(t, allNodeNames, effects, s);
  }

  /** `names` with every occurrence of `x` removed, in order. */
  function Without(names: seq<string>, x: string): (r: seq<string>)
    ensures forall c :: c in r <==> c in names && c != x
    decreases |names|
  {
    if names == [] then []
    else
      var c := names[|names| - 1];
      assert names == names[..|names| - 1] + [c];
      Without(names[..|names| - 1], x) + (if c != x then [c] else [])
  }

  /** With no effects, every other name is offered, in order. */
  lemma {:induction false} NoEffectsOffersAllOthers(x: string, names: seq<string>)
    ensures SourcesFor(EffectGraph([]), x, names) == Without(names, x)
    ensures TargetsFor(EffectGraph([]), x, names) == Without(names, x)
    decreases |names|
  {
    if names != [] {
      var c := names[|names| - 1];
      NoEffectsOffersAllOthers(x, names[..|names| - 1]);
      assert EffectGraph([]) == {};
      EmptyGraphReachable(x, c);
      EmptyGraphReachable(c, x);
    }
  }

  // ---------------------------------------------------------------------------
  // The empty name: "nothing chosen yet", and also a name the schema accepts
  // ---------------------------------------------------------------------------

  /** The two effect graphs of the counterexamples: one edge between `""` and `a`, and both edges. */
  lemma EmptyNameGraphs()
    ensures Acyclic(EffectGraph([Link("", "a")])) && Acyclic(EffectGraph([Link("a", "")]))
    ensures !Acyclic(EffectGraph([Link("", "a"), Link("a", "")]))
    ensures !Acyclic(EffectGraph([Link("a", ""), Link("", "a")]))
  {
    assert EffectGraph([Link("", "a")]) == {("", "a")};
    assert EffectGraph([Link("a", "")]) == {("a", "")};
    RankedGraphIsAcyclic({("", "a")}, map["" := 1, "a" := 0]);
    RankedGraphIsAcyclic({("a", "")}, map["a" := 1, "" := 0]);
    var h := EffectGraph([Link("", "a"), Link("a", "")]);
    assert h == {("", "a"), ("a", "")};
    ReachableEdge(h, "", "a");
    assert Edge(h, "a", "");
    var h' := EffectGraph([Link("a", ""), Link("", "a")]);
    assert h' == h;
  }

  /** As written, a node named `""` is taken for "no target chosen": every name is offered as
      its source, and the offered edge `a -> ""` closes a cycle in an acyclic graph. */
  lemma EmptyTargetOfferCloseCycle()
    ensures Acyclic(EffectGraph([Link("", "a")]))
    ensures "a" in AvailableSources("", ["a"], [Link("", "a")])
    ensures !Acyclic(EffectGraph([Link("", "a")] + [Link("a", "")]))
  {
    EmptyNameGraphs();
    assert [Link("", "a")] + [Link("a", "")] == [Link("", "a"), Link("a", "")];
  }

  /** As written, the same for a source named `""`: the offered edge `"" -> a` closes a cycle. */
  lemma EmptySourceOfferCloseCycle()
    ensures Acyclic(EffectGraph([Link("a", "")]))
    ensures "a" in AvailableTargets("", ["a"], [Link("a", "")])
    ensures !Acyclic(EffectGraph([Link("a", "")] + [Link("", "a")]))
  {
    EmptyNameGraphs();
    assert [Link("a", "")] + [Link("", "a")] == [Link("a", ""), Link("", "a")];
  }

  /** The queries with "nothing chosen" kept apart from every name, the empty one included. */
  ghost function SelectedSources(target: Option<string>, allNodeNames: seq<string>, effects: seq<Effect>): seq<string> {
    if target.None? then allNodeNames else SourcesFor(EffectGraph(effects), target.value, allNodeNames)
  }

  ghost function SelectedTargets(source: Option<string>, allNodeNames: seq<string>, effects: seq<Effect>): seq<string> {
    if source.None? then allNodeNames else TargetsFor(EffectGraph(effects), source.value, allNodeNames)
  }

  /** The selection agrees with the queries as written for every non-empty name. */
  lemma SelectedAgreesWhenNonEmpty(name: string, allNodeNames: seq<string>, effects: seq<Effect>)
    requires name != ""
    ensures SelectedSources(Some(name), allNodeNames, effects) == AvailableSources(name, allNodeNames, effects)
    ensures SelectedTargets(Some(name), allNodeNames, effects) == AvailableTargets(name, allNodeNames, effects)
  {
  }

  /** With the choice kept apart from the names, an offered source is safe for every chosen target. */
  lemma SelectedSourceKeepsAcyclic(target: string, allNodeNames: seq<string>, effects: seq<Effect>, e: Effect)
    requires Acyclic(EffectGraph(effects))
    requires e.target == target && e.source in SelectedSources(Some(target), allNodeNames, effects)
    ensures Acyclic(EffectGraph(effects + [e]))
  {
    SourcesForMembers(EffectGraph(effects), target, allNodeNames, e.source);
    EffectGraphAppend(effects, e);
    AddEdgeKeepsAcyclic(EffectGraph(effects), e.source, e.target);
  }

  /** With the choice kept apart from the names, an offered target is safe for every chosen source. */
  lemma SelectedTargetKeepsAcyclic(source: string, allNodeNames: seq<string>, effects: seq<Effect>, e: Effect)
    requires Acyclic(EffectGraph(effects))
    requires e.source == source && e.target in SelectedTargets(Some(source), allNodeNames, effects)
    ensures Acyclic(EffectGraph(effects + [e]))
  {
    TargetsForMembers(EffectGraph(effects), source, allNodeNames, e.target);
    EffectGraphAppend(effects, e);
    AddEdgeKeepsAcyclic(EffectGraph(effects), e.source, e.target);
  }

  // ---------------------------------------------------------------------------
  // The scenarios of the unit tests
  // ---------------------------------------------------------------------------

  function Link(source: string, target: string): Effect {
    Effect("eff_" + source + "_" + target, source, target, EffectCorrelation, 0.5)
  }

  lemma SourcesForSnoc(g: Graph, t: string, names: seq<string>, c: string)
    ensures SourcesFor(g, t, names + [c]) == SourcesFor(g, t, names) + (if CanBeSource(g, t, c) then [c] else [])
  {
    assert (names + [c])[..|names|] == names;
  }

  lemma TwoChainsReachability(g: Graph)
    requires g == {("A", "B"), ("C", "D")}
    ensures !Reachable(g, "C", "A") && !Reachable(g, "C", "B") && Reachable(g, "C", "D")
  {
    if Reachable(g, "C", "A") {
      ClosedSetContainsReachable(g, {"C", "D"}, "C", "A");
    }
    if Reachable(g, "C", "B") {
      ClosedSetContainsReachable(g, {"C", "D"}, "C", "B");
    }
    ReachableEdge(g, "C", "D");
  }

  /** With `A -> B` and `C -> D`, the sources offered for `C` are `A` and `B`. */
  lemma TwoChainsSourcesForC()
    ensures AvailableSources("C", ["A", "B", "C", "D"], [Link("A", "B"), Link("C", "D")]) == ["A", "B"]
  {
    var g := EffectGraph([Link("A", "B"), Link("C", "D")]);
    assert g == {("A", "B"), ("C", "D")};
    TwoChainsReachability(g);
    SourcesForSnoc(g, "C", [], "A");
    SourcesForSnoc(g, "C", ["A"], "B");
    SourcesForSnoc(g, "C", ["A", "B"], "C");
    SourcesForSnoc(g, "C", ["A", "B", "C"], "D");
    assert [] + ["A"] == ["A"] && ["A"] + ["B"] == ["A", "B"];
    assert ["A", "B"] + ["C"] == ["A", "B", "C"] && ["A", "B", "C"] + ["D"] == ["A", "B", "C", "D"];
  }

  /** With `A -> B -> C`, no source is offered for `A`. */
  lemma ChainOffersNoSourceForHead()
    ensures AvailableSources("A", ["A", "B", "C"], [Link("A", "B"), Link("B", "C")]) == []
  {
    var g := EffectGraph([Link("A", "B"), Link("B", "C")]);
    assert g == {("A", "B"), ("B", "C")};
    ReachableEdge(g, "A", "B");
    ReachableEdge(g, "B", "C");
    ReachableTransitive(g, "A", "B", "C");
    assert ["A"][..0] == [] && ["A", "B"][..1] == ["A"] && ["A", "B", "C"][..2] == ["A", "B"];
    assert SourcesFor(g, "A", ["A"]) == [];
    assert SourcesFor(g, "A", ["A", "B"]) == [];
  }

  /** With `A -> B -> C`, no target is offered for `C`. */
  lemma ChainOffersNoTargetForTail()
    ensures AvailableTargets("C", ["A", "B", "C"], [Link("A", "B"), Link("B", "C")]) == []
  {
    var g := EffectGraph([Link("A", "B"), Link("B", "C")]);
    assert g == {("A", "B"), ("B", "C")};
    ReachableEdge(g, "A", "B");
    ReachableEdge(g, "B", "C");
    ReachableTransitive(g, "A", "B", "C");
    assert ["A"][..0] == [] && ["A", "B"][..1] == ["A"] && ["A", "B", "C"][..2] == ["A", "B"];
    assert TargetsFor(g, "C", ["A"]) == [];
    assert TargetsFor(g, "C", ["A", "B"]) == [];
  }

  /** With `A -> B`, no source is offered for `A`: `B` would close the cycle. */
  lemma EdgeOffersNoSourceForHead()
    ensures AvailableSources("A", ["A", "B"], [Link("A", "B")]) == []
  {
    var g := EffectGraph([Link("A", "B")]);
    assert g == {("A", "B")};
    ReachableEdge(g, "A", "B");
    SourcesForSnoc(g, "A", [], "A");
    SourcesForSnoc(g, "A", ["A"], "B");
    assert [] + ["A"] == ["A"] && ["A"] + ["B"] == ["A", "B"];
  }

  /** With `A -> B`, no target is offered for `B`: `A` would close the cycle. */
  lemma EdgeOffersNoTargetForTail()
    ensures AvailableTargets("B", ["A", "B"], [Link("A", "B")]) == []
  {
    var g := EffectGraph([Link("A", "B")]);
    assert g == {("A", "B")};
    ReachableEdge(g, "A", "B");
    assert ["A", "B"][..1] == ["A"] && ["A"][..0] == [];
    assert TargetsFor(g, "B", ["A"]) == [];
  }
}
