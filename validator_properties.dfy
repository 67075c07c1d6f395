/**
 * What the validator's result means: which designs it accepts, where each kind of
 * error is reported, and how its verdict agrees with the graph code's offers of
 * sources and targets for a new effect.
 */
module ValidatorProperties {
  import opened StudyModel
  import opened Digraph
  import opened Validator
  import GraphUtils

  /** The errors reported at `path`, in the order they were reported. */
  function ErrorsAt(errors: seq<ValidationError>, path: string): (r: seq<ValidationError>)
    ensures |r| <= |errors|
    ensures forall x :: x in r ==> x in errors && x.path == path
    decreases |errors|
  {
    if errors == [] then []
    else
      var last := errors[|errors| - 1];
      ErrorsAt(errors[..|errors| - 1], path) + (if last.path == path then [last] else [])
  }

  lemma {:induction false} ErrorsAtConcat(a: seq<ValidationError>, b: seq<ValidationError>, path: string)
    ensures ErrorsAt(a + b, path) == ErrorsAt(a, path) + ErrorsAt(b, path)
    decreases |b|
  {
    if b == [] {
      assert a + b == a;
    } else {
      var b' := b[..|b| - 1];
      assert (a + b)[..|a + b| - 1] == a + b';
      assert (a + b)[|a + b| - 1] == b[|b| - 1];
      ErrorsAtConcat(a, b', path);
    }
  }

  lemma SplitLast<T>(s: seq<T>)
    requires |s| > 0
    ensures s[..|s| - 1] + [s[|s| - 1]] == s
  {
  }

  lemma {:induction false} ErrorsAtAll(errors: seq<ValidationError>, path: string)
    requires forall k :: 0 <= k < |errors| ==> errors[k].path == path
    ensures ErrorsAt(errors, path) == errors
    decreases |errors|
  {
    if errors != [] {
      var n := |errors| - 1;
      var init := errors[..n];
      assert forall k :: 0 <= k < |init| ==> init[k] == errors[k];
      ErrorsAtAll(init, path);
      assert ErrorsAt(errors, path) == ErrorsAt(init, path) + [errors[n]];
      SplitLast(errors);
    }
  }

  lemma {:induction false} ErrorsAtKeeps(errors: seq<ValidationError>, path: string)
    ensures forall x :: x in errors && x.path == path ==> x in ErrorsAt(errors, path)
    decreases |errors|
  {
    if errors != [] {
      var n := |errors| - 1;
      ErrorsAtKeeps(errors[..n], path);
      SplitLast(errors);
      assert forall x :: x in errors ==> x in errors[..n] || x == errors[n];
    }
  }

  lemma {:induction false} ErrorsAtNone(errors: seq<ValidationError>, path: string)
    requires forall k :: 0 <= k < |errors| ==> errors[k].path != path
    ensures ErrorsAt(errors, path) == []
    decreases |errors|
  {
    if errors != [] {
      var n := |errors| - 1;
      var init := errors[..n];
      assert forall k :: 0 <= k < |init| ==> init[k] == errors[k];
      ErrorsAtNone(init, path);
      assert ErrorsAt(errors, path) == ErrorsAt(init, path);
    }
  }

  // ---------------------------------------------------------------------------
  // The shape of the name entries
  // ---------------------------------------------------------------------------

  lemma {:induction false} ItemEntriesShape(items: seq<InstrumentItem>, index: nat)
    ensures |ItemEntries(items, index)| == |items|
    ensures forall j :: 0 <= j < |items| ==> ItemEntries(items, index)[j] == NameEntry(items[j].name, ItemPath(index, j), true)
    decreases |items|
  {
    if items != [] {
      var j := |items| - 1;
      ItemEntriesShape(items[..j], index);
    }
  }

  /** A variable or item path of one of the first `n` variables. */
  predicate NamePathBelow(p: ErrorPath, n: nat) {
    (p.VariablePath? || p.ItemPath?) && p.index < n
  }

  /** The entry paths of the design: each points at a variable or an item, and no two are equal. */
  lemma {:induction false} NameEntriesPaths(variables: seq<StudyNode>)
    ensures forall k :: 0 <= k < |NameEntries(variables)| ==> NamePathBelow(NameEntries(variables)[k].path, |variables|)
    ensures forall a, b :: 0 <= a < b < |NameEntries(variables)| ==> NameEntries(variables)[a].path != NameEntries(variables)[b].path
    decreases |variables|
  {
    if variables != [] {
      var i := |variables| - 1;
      var init := NameEntries(variables[..i]);
      var node := NodeEntries(variables[i], i);
      NameEntriesPaths(variables[..i]);
      var v := variables[i];
      if v.kind == "instrument" && v.items.Some? {
        ItemEntriesShape(v.items.value, i);
      }
      assert forall k :: 0 <= k < |node| ==> node[k].path.index == i && (node[k].path.VariablePath? <==> k == 0) by {
        forall k | 0 <= k < |node|
          ensures node[k].path.index == i && (node[k].path.VariablePath? <==> k == 0)
        {
          if k > 0 {
            assert node[k] == ItemEntries(v.items.value, i)[k - 1];
          }
        }
      }
      assert forall a, b :: 0 <= a < b < |node| ==> node[a].path != node[b].path by {
        forall a, b | 0 <= a < b < |node|
          ensures node[a].path != node[b].path
        {
          if a > 0 {
            assert node[a] == ItemEntries(v.items.value, i)[a - 1];
            assert node[b] == ItemEntries(v.items.value, i)[b - 1];
          }
        }
      }
      var es := init + node;
      assert es == NameEntries(variables);
      forall a, b | 0 <= a < b < |es|
        ensures es[a].path != es[b].path
      {
        if b < |init| {
          assert es[a] == init[a] && es[b] == init[b];
        } else if a < |init| {
          assert es[a] == init[a] && es[b] == node[b - |init|];
        } else {
          assert es[a] == node[a - |init|] && es[b] == node[b - |init|];
        }
      }
      forall k | 0 <= k < |es|
        ensures NamePathBelow(es[k].path, |variables|)
      {
        if k < |init| {
          assert es[k] == init[k];
        } else {
          assert es[k] == node[k - |init|];
        }
      }
    }
  }

  // ---------------------------------------------------------------------------
  // Where each kind of error lands
  // ---------------------------------------------------------------------------

  /** No duplicate error is reported at a path none of the entries has. */
  lemma {:induction false} DuplicateErrorsAtOther(entries: seq<NameEntry>, p: ErrorPath)
    requires forall k :: 0 <= k < |entries| ==> entries[k].path != p
    ensures ErrorsAt(DuplicateErrors(entries), PathText(p)) == []
    decreases |entries|
  {
    if entries != [] {
      var init, e := entries[..|entries| - 1], entries[|entries| - 1];
      assert forall k :: 0 <= k < |init| ==> init[k] == entries[k];
      SplitLast(entries);
      DuplicateErrorsAtOther(init, p);
      DuplicateErrorsAtEarlier(init, e, p);
    }
  }

  lemma ErrorsAtSingle(x: ValidationError, path: string)
    ensures ErrorsAt([x], path) == (if x.path == path then [x] else [])
  {
    assert [x][..0] == [];
  }

  /** The duplicate error an entry adds, if any: its own, at its own path. */
  function DuplicateTail(init: seq<NameEntry>, e: NameEntry): seq<ValidationError> {
    if e.name in EntryNames(init) then [DuplicateError(e)] else []
  }

  lemma DuplicateTailAt(init: seq<NameEntry>, e: NameEntry, p: ErrorPath)
    ensures ErrorsAt(DuplicateTail(init, e), PathText(p)) == (if p == e.path then DuplicateTail(init, e) else [])
  {
    if PathText(e.path) == PathText(p) {
      PathTextInjective(e.path, p);
    }
    if e.name in EntryNames(init) {
      ErrorsAtSingle(DuplicateError(e), PathText(p));
    }
  }

  lemma DuplicateErrorsAtLast(init: seq<NameEntry>, e: NameEntry)
    requires forall j :: 0 <= j < |init| ==> init[j].path != e.path
    ensures ErrorsAt(DuplicateErrors(init + [e]), PathText(e.path)) == DuplicateTail(init, e)
  {
    DuplicateErrorsAppend(init, e);
    ErrorsAtConcat(DuplicateErrors(init), DuplicateTail(init, e), PathText(e.path));
    DuplicateErrorsAtOther(init, e.path);
    DuplicateTailAt(init, e, e.path);
  }

  lemma DuplicateErrorsAtEarlier(init: seq<NameEntry>, e: NameEntry, p: ErrorPath)
    requires p != e.path
    ensures ErrorsAt(DuplicateErrors(init + [e]), PathText(p)) == ErrorsAt(DuplicateErrors(init), PathText(p))
  {
    DuplicateErrorsAppend(init, e);
    ErrorsAtConcat(DuplicateErrors(init), DuplicateTail(init, e), PathText(p));
    DuplicateTailAt(init, e, p);
  }

  /** At the path of entry `k`, exactly one duplicate error is reported when its name was met
      before it, and none otherwise. */
  lemma {:induction false} DuplicateErrorsAt(entries: seq<NameEntry>, k: nat)
    requires k < |entries|
    requires forall a, b :: 0 <= a < b < |entries| ==> entries[a].path != entries[b].path
    ensures ErrorsAt(DuplicateErrors(entries), PathText(entries[k].path)) ==
      (if entries[k].name in EntryNames(entries[..k]) then [DuplicateError(entries[k])] else [])
    decreases |entries|
  {
    var n := |entries| - 1;
    var init, e := entries[..n], entries[n];
    SplitLast(entries);
    if k == n {
      DuplicateErrorsAtLast(init, e);
    } else {
      assert init[k] == entries[k] && init[..k] == entries[..k];
      DuplicateErrorsAt(init, k);
      DuplicateErrorsAtEarlier(init, e, entries[k].path);
    }
  }

  lemma EffectCheckAt(e: Effect, j: nat, names: set<string>, p: ErrorPath)
    ensures ErrorsAt(EffectCheck(e, j, names), PathText(p)) == (if p == EffectPath(j) then EffectCheck(e, j, names) else [])
  {
    var errs := EffectCheck(e, j, names);
    if p == EffectPath(j) {
      ErrorsAtAll(errs, PathText(p));
    } else {
      if PathText(p) == PathText(EffectPath(j)) {
        PathTextInjective(p, EffectPath(j));
      }
      ErrorsAtNone(errs, PathText(p));
    }
  }

  /** The errors at a path are those of the effect the path points at, if any. */
  lemma {:induction false} EffectErrorsAt(effects: seq<Effect>, names: set<string>, p: ErrorPath)
    ensures ErrorsAt(EffectErrors(effects, names), PathText(p)) ==
      (if p.EffectPath? && p.index < |effects| then EffectCheck(effects[p.index], p.index, names) else [])
    decreases |effects|
  {
    if effects != [] {
      var i := |effects| - 1;
      var init := effects[..i];
      var check := EffectCheck(effects[i], i, names);
      assert EffectErrors(effects, names) == EffectErrors(init, names) + check;
      EffectErrorsAt(init, names, p);
      EffectCheckAt(effects[i], i, names, p);
      ErrorsAtConcat(EffectErrors(init, names), check, PathText(p));
      if p.EffectPath? && p.index < i {
        assert init[p.index] == effects[p.index];
      }
    } else {
      assert EffectErrors(effects, names) == [];
    }
  }

  lemma CycleErrorAt(input: StudyDesign, p: ErrorPath)
    ensures ErrorsAt(CycleErrors(input), PathText(p)) == (if p == EffectsPath then CycleErrors(input) else [])
  {
    if PathText(p) == PathText(EffectsPath) {
      PathTextInjective(p, EffectsPath);
    }
    if p == EffectsPath {
      ErrorsAtAll(CycleErrors(input), PathText(p));
    } else {
      ErrorsAtNone(CycleErrors(input), PathText(p));
    }
  }

  /** The errors of an accepted schema at `p`, split by the check that reports them. */
  lemma ValidationErrorsAt(input: StudyDesign, summary: string, p: ErrorPath)
    requires StudyDesignSchema(input)
    ensures ErrorsAt(Validation(input, summary).errors, PathText(p)) ==
      ErrorsAt(DuplicateErrors(DesignEntries(input)), PathText(p))
      + (if p.EffectPath? && p.index < |EffectsOf(input)| then EffectCheck(EffectsOf(input)[p.index], p.index, DesignNames(input)) else [])
      + (if p == EffectsPath then CycleErrors(input) else [])
  {
    var dups := DuplicateErrors(DesignEntries(input));
    var effs := EffectErrors(EffectsOf(input), DesignNames(input));
    var cycle := CycleErrors(input);
    var path := PathText(p);
    ErrorsAtConcat(dups + effs, cycle, path);
    ErrorsAtConcat(dups, effs, path);
    EffectErrorsAt(EffectsOf(input), DesignNames(input), p);
    CycleErrorAt(input, p);
  }

  // ---------------------------------------------------------------------------
  // Error reports
  // ---------------------------------------------------------------------------

  /** A design the schema rejects gets the one schema error and nothing else. */
  lemma SchemaRejectionIsSingleError(input: StudyDesign, summary: string)
    requires !StudyDesignSchema(input)
    ensures !Validation(input, summary).valid
    ensures Validation(input, summary).errors == [ValidationError("schema", summary)]
  {
  }

  /** Each variable, instrument or item name is reported once at its own path when it repeats
      a name met earlier in the walk, and is not reported otherwise. */
  lemma DuplicateReportedAtItsPath(input: StudyDesign, summary: string, k: nat)
    requires StudyDesignSchema(input) && k < |DesignEntries(input)|
    ensures var e := DesignEntries(input)[k];
      ErrorsAt(Validation(input, summary).errors, PathText(e.path)) ==
        (if e.name in EntryNames(DesignEntries(input)[..k]) then [DuplicateError(e)] else [])
  {
    var es := DesignEntries(input);
    NameEntriesPaths(input.variables.value);
    ValidationErrorsAt(input, summary, es[k].path);
    DuplicateErrorsAt(es, k);
  }

  /** The checks on one effect report a missing source, a missing target and a self-reference
      each exactly when it is the case, and nothing else. */
  lemma EffectCheckContents(e: Effect, i: nat, names: set<string>)
    ensures var errs := EffectCheck(e, i, names);
      var path := PathText(EffectPath(i));
      && (ValidationError(path, "Source variable not found: " + e.source) in errs <==> e.source !in names)
      && (ValidationError(path, "Target variable not found: " + e.target) in errs <==> e.target !in names)
      && (ValidationError(path, "Self-reference not allowed: " + e.source) in errs <==> e.source == e.target)
      && |errs| <= 3
  {
    var src := "Source variable not found: " + e.source;
    var tgt := "Target variable not found: " + e.target;
    var slf := "Self-reference not allowed: " + e.source;
    assert src[0] == 'S' && src[1] == 'o';
    assert tgt[0] == 'T';
    assert slf[0] == 'S' && slf[1] == 'e';
  }

  /** At `effects[i]` exactly the checks on that effect are reported: its missing-source,
      missing-target and self-reference errors, in that order. */
  lemma EffectReportedAtItsPath(input: StudyDesign, summary: string, i: nat)
    requires StudyDesignSchema(input) && input.effects.Some? && i < |input.effects.value|
    ensures ErrorsAt(Validation(input, summary).errors, PathText(EffectPath(i))) ==
      EffectCheck(input.effects.value[i], i, DesignNames(input))
  {
    if input.variables.Some? {
      NameEntriesPaths(input.variables.value);
    }
    DuplicateErrorsAtOther(DesignEntries(input), EffectPath(i));
    ValidationErrorsAt(input, summary, EffectPath(i));
  }

  /** The cycle error is reported once at `effects` exactly when the resolved effects form a cycle. */
  lemma CycleReportedAtEffects(input: StudyDesign, summary: string)
    requires StudyDesignSchema(input)
    ensures ErrorsAt(Validation(input, summary).errors, "effects") ==
      (if input.effects.Some? && !Acyclic(ResolvedGraph(input.effects.value, DesignNames(input))) then [CycleError] else [])
  {
    if input.variables.Some? {
      NameEntriesPaths(input.variables.value);
    }
    DuplicateErrorsAtOther(DesignEntries(input), EffectsPath);
    ValidationErrorsAt(input, summary, EffectsPath);
  }

  /** An effect from a known name to itself is reported twice: as a self-reference at its
      own path, and as a cycle at `effects`. */
  lemma SelfLoopReportedTwice(input: StudyDesign, summary: string, i: nat)
    requires StudyDesignSchema(input) && input.effects.Some? && i < |input.effects.value|
    requires input.effects.value[i].source == input.effects.value[i].target
    requires input.effects.value[i].source in DesignNames(input)
    ensures ValidationError(PathText(EffectPath(i)), "Self-reference not allowed: " + input.effects.value[i].source)
      in Validation(input, summary).errors
    ensures CycleError in Validation(input, summary).errors
  {
    var e := input.effects.value[i];
    var g := ResolvedGraph(input.effects.value, DesignNames(input));
    assert Edge(g, e.source, e.target);
    ReachableSelf(g, e.source);
    EffectReportedAtItsPath(input, summary, i);
    EffectCheckContents(e, i, DesignNames(input));
    CycleReportedAtEffects(input, summary);
  }

  /** An error about a variable or an item: its path starts with `variables`. */
  predicate IsNodeError(x: ValidationError) {
    |x.path| > 0 && x.path[0] == 'v'
  }

  lemma {:induction false} DuplicateErrorsAreNodeErrors(entries: seq<NameEntry>)
    requires forall k :: 0 <= k < |entries| ==> entries[k].path.VariablePath? || entries[k].path.ItemPath?
    ensures forall k :: 0 <= k < |DuplicateErrors(entries)| ==> IsNodeError(DuplicateErrors(entries)[k])
    decreases |entries|
  {
    if entries != [] {
      var init, e := entries[..|entries| - 1], entries[|entries| - 1];
      assert forall k :: 0 <= k < |init| ==> init[k] == entries[k];
      DuplicateErrorsAreNodeErrors(init);
      PathTextStart(e.path);
      var all := DuplicateErrors(entries);
      assert all == DuplicateErrors(init) + DuplicateTail(init, e);
      forall k | 0 <= k < |all|
        ensures IsNodeError(all[k])
      {
        if k < |DuplicateErrors(init)| {
          assert all[k] == DuplicateErrors(init)[k];
        }
      }
    }
  }

  lemma {:induction false} EffectErrorsAreNotNodeErrors(effects: seq<Effect>, names: set<string>)
    ensures forall k :: 0 <= k < |EffectErrors(effects, names)| ==> !IsNodeError(EffectErrors(effects, names)[k])
    decreases |effects|
  {
    if effects != [] {
      var i := |effects| - 1;
      EffectErrorsAreNotNodeErrors(effects[..i], names);
      PathTextStart(EffectPath(i));
      var init := EffectErrors(effects[..i], names);
      var all := EffectErrors(effects, names);
      assert all == init + EffectCheck(effects[i], i, names);
      forall k | 0 <= k < |all|
        ensures !IsNodeError(all[k])
      {
        if k < |init| {
          assert all[k] == init[k];
        }
      }
    }
  }

  /** Every effect error points at one of the effects. */
  lemma {:induction false} EffectErrorIndex(effects: seq<Effect>, names: set<string>, k: nat) returns (i: nat)
    requires k < |EffectErrors(effects, names)|
    ensures i < |effects| && EffectErrors(effects, names)[k].path == PathText(EffectPath(i))
    decreases |effects|
  {
    var n := |effects| - 1;
    var init := EffectErrors(effects[..n], names);
    var check := EffectCheck(effects[n], n, names);
    assert EffectErrors(effects, names) == init + check;
    if k < |init| {
      i := EffectErrorIndex(effects[..n], names, k);
      assert EffectErrors(effects, names)[k] == init[k];
    } else {
      i := n;
      assert EffectErrors(effects, names)[k] == check[k - |init|];
    }
  }

  /** Effect errors come in effect-index order. */
  lemma {:induction false} EffectErrorsInIndexOrder(effects: seq<Effect>, names: set<string>, a: nat, b: nat, i: nat, j: nat)
    requires a < b < |EffectErrors(effects, names)|
    requires EffectErrors(effects, names)[a].path == PathText(EffectPath(i))
    requires EffectErrors(effects, names)[b].path == PathText(EffectPath(j))
    ensures i <= j
    decreases |effects|
  {
    var n := |effects| - 1;
    var init := EffectErrors(effects[..n], names);
    var check := EffectCheck(effects[n], n, names);
    var all := EffectErrors(effects, names);
    assert all == init + check;
    if b < |init| {
      assert all[a] == init[a] && all[b] == init[b];
      EffectErrorsInIndexOrder(effects[..n], names, a, b, i, j);
    } else {
      assert all[b] == check[b - |init|];
      EffectPathsInjective(j, n);
      if a < |init| {
        assert all[a] == init[a];
        var i' := EffectErrorIndex(effects[..n], names, a);
        EffectPathsInjective(i, i');
      } else {
        assert all[a] == check[a - |init|];
        EffectPathsInjective(i, n);
      }
    }
  }

  /** Errors come in check order: every error about a variable or item precedes every error
      about an effect, and the cycle error, when present, is the last one. */
  lemma ErrorsInCheckOrder(input: StudyDesign, summary: string)
    requires StudyDesignSchema(input)
    ensures var errs := Validation(input, summary).errors;
      forall a, b :: 0 <= a < b < |errs| && IsNodeError(errs[b]) ==> IsNodeError(errs[a])
    ensures var errs := Validation(input, summary).errors;
      CycleError in errs ==> errs[|errs| - 1] == CycleError
  {
    if input.variables.Some? {
      NameEntriesPaths(input.variables.value);
    }
    var dups := DuplicateErrors(DesignEntries(input));
    var effs := EffectErrors(EffectsOf(input), DesignNames(input));
    var cycle := CycleErrors(input);
    var errs := Validation(input, summary).errors;
    assert errs == dups + effs + cycle;
    DuplicateErrorsAreNodeErrors(DesignEntries(input));
    EffectErrorsAreNotNodeErrors(EffectsOf(input), DesignNames(input));
    PathTextStart(EffectsPath);
    forall k | |dups| <= k < |errs|
      ensures !IsNodeError(errs[k])
    {
      if k < |dups| + |effs| {
        assert errs[k] == effs[k - |dups|];
      } else {
        assert errs[k] == cycle[k - |dups| - |effs|];
      }
    }
    forall k | 0 <= k < |dups|
      ensures IsNodeError(errs[k])
    {
      assert errs[k] == dups[k];
    }
    CycleReportedAtEffects(input, summary);
    ErrorsAtKeeps(errs, "effects");
  }

  /** Effect errors placed after errors about nodes and before errors of length-7 paths keep their order. */
  lemma SegmentIndexOrder(dups: seq<ValidationError>, effects: seq<Effect>, names: set<string>, cycle: seq<ValidationError>,
                          a: nat, b: nat, i: nat, j: nat)
    requires forall k :: 0 <= k < |dups| ==> IsNodeError(dups[k])
    requires forall k :: 0 <= k < |cycle| ==> |cycle[k].path| == 7
    requires a < b < |dups + EffectErrors(effects, names) + cycle|
    requires (dups + EffectErrors(effects, names) + cycle)[a].path == PathText(EffectPath(i))
    requires (dups + EffectErrors(effects, names) + cycle)[b].path == PathText(EffectPath(j))
    ensures i <= j
  {
    var effs := EffectErrors(effects, names);
    var errs := dups + effs + cycle;
    PathTextStart(EffectPath(i));
    PathTextStart(EffectPath(j));
    assert forall k :: 0 <= k < |dups| ==> IsNodeError(errs[k]) by {
      forall k | 0 <= k < |dups|
        ensures IsNodeError(errs[k])
      {
        assert errs[k] == dups[k];
      }
    }
    assert forall k :: |dups| + |effs| <= k < |errs| ==> |errs[k].path| == 7 by {
      forall k | |dups| + |effs| <= k < |errs|
        ensures |errs[k].path| == 7
      {
        assert errs[k] == cycle[k - |dups| - |effs|];
      }
    }
    assert !IsNodeError(errs[a]);
    assert |dups| <= a && b < |dups| + |effs|;
    assert errs[a] == effs[a - |dups|] && errs[b] == effs[b - |dups|];
    EffectErrorsInIndexOrder(effects, names, a - |dups|, b - |dups|, i, j);
  }

  /** In the whole result too, errors about effects come in effect-index order. */
  lemma ValidationEffectErrorsInIndexOrder(input: StudyDesign, summary: string, a: nat, b: nat, i: nat, j: nat)
    requires StudyDesignSchema(input)
    requires a < b < |Validation(input, summary).errors|
    requires Validation(input, summary).errors[a].path == PathText(EffectPath(i))
    requires Validation(input, summary).errors[b].path == PathText(EffectPath(j))
    ensures i <= j
  {
    if input.variables.Some? {
      NameEntriesPaths(input.variables.value);
    }
    DuplicateErrorsAreNodeErrors(DesignEntries(input));
    PathTextStart(EffectsPath);
    SegmentIndexOrder(DuplicateErrors(DesignEntries(input)), EffectsOf(input), DesignNames(input), CycleErrors(input), a, b, i, j);
  }

  // ---------------------------------------------------------------------------
  // Which designs are accepted
  // ---------------------------------------------------------------------------

  lemma DistinctAppendIff(s: seq<string>, x: string)
    ensures Distinct(s + [x]) <==> Distinct(s) && x !in s
  {
    if Distinct(s + [x]) {
      assert forall a, b :: 0 <= a < b < |s| ==> (s + [x])[a] == s[a] && (s + [x])[b] == s[b];
      forall a | 0 <= a < |s|
        ensures s[a] != x
      {
        assert (s + [x])[a] == s[a] && (s + [x])[|s|] == x;
      }
    } else if Distinct(s) && x !in s {
      DistinctAppend(s, x);
    }
  }

  /** No duplicate is reported exactly when all the names met are different. */
  lemma {:induction false} NoDuplicateErrorsIffDistinct(entries: seq<NameEntry>)
    ensures DuplicateErrors(entries) == [] <==> Distinct(EntryNames(entries))
    decreases |entries|
  {
    if entries != [] {
      var init, e := entries[..|entries| - 1], entries[|entries| - 1];
      NoDuplicateErrorsIffDistinct(init);
      assert EntryNames(entries) == EntryNames(init) + [e.name];
      DistinctAppendIff(EntryNames(init), e.name);
    }
  }

  /** Every effect joins two known, different names. */
  predicate EffectsResolved(effects: seq<Effect>, names: set<string>) {
    forall e :: e in effects ==> e.source in names && e.target in names && e.source != e.target
  }

  /** No effect error is reported exactly when every effect joins two known, different names. */
  lemma {:induction false} NoEffectErrorsIffResolved(effects: seq<Effect>, names: set<string>)
    ensures EffectErrors(effects, names) == [] <==> EffectsResolved(effects, names)
    decreases |effects|
  {
    if effects != [] {
      var i := |effects| - 1;
      NoEffectErrorsIffResolved(effects[..i], names);
      assert effects == effects[..i] + [effects[i]];
      assert forall e :: e in effects <==> e in effects[..i] || e == effects[i];
    }
  }

  lemma ResolvedGraphIsEffectGraph(effects: seq<Effect>, names: set<string>)
    requires EffectsResolved(effects, names)
    ensures ResolvedGraph(effects, names) == GraphUtils.EffectGraph(effects)
  {
  }

  /** A design is accepted exactly when the schema accepts it, no variable, instrument or item
      name repeats, every effect joins two known, different names, and the effects form no cycle. */
  lemma ValidationCharacterization(input: StudyDesign, summary: string)
    ensures Validation(input, summary).valid <==>
      && StudyDesignSchema(input)
      && Distinct(EntryNames(DesignEntries(input)))
      && EffectsResolved(EffectsOf(input), DesignNames(input))
      && Acyclic(GraphUtils.EffectGraph(EffectsOf(input)))
  {
    if StudyDesignSchema(input) {
      NoDuplicateErrorsIffDistinct(DesignEntries(input));
      NoEffectErrorsIffResolved(EffectsOf(input), DesignNames(input));
      if EffectsResolved(EffectsOf(input), DesignNames(input)) {
        ResolvedGraphIsEffectGraph(EffectsOf(input), DesignNames(input));
      }
      if input.effects.None? {
        assert GraphUtils.EffectGraph([]) == {};
      }
    }
  }

  // ---------------------------------------------------------------------------
  // Agreement with the offers of the graph code
  // ---------------------------------------------------------------------------

  /** The design with one more effect `e`. */
  function WithEffect(input: StudyDesign, e: Effect): StudyDesign {
    input.(effects := Some(EffectsOf(input) + [e]))
  }

  lemma WithEffectFacts(input: StudyDesign, e: Effect)
    ensures DesignEntries(WithEffect(input, e)) == DesignEntries(input)
    ensures DesignNames(WithEffect(input, e)) == DesignNames(input)
    ensures EffectsOf(WithEffect(input, e)) == EffectsOf(input) + [e]
    ensures StudyDesignSchema(WithEffect(input, e)) <==> StudyDesignSchema(input) && EffectSchema(e)
    ensures EffectsResolved(EffectsOf(input) + [e], DesignNames(input)) <==>
      EffectsResolved(EffectsOf(input), DesignNames(input)) && e.source in DesignNames(input) && e.target in DesignNames(input) && e.source != e.target
  {
    var es := EffectsOf(input) + [e];
    assert forall x :: x in es <==> x in EffectsOf(input) || x == e;
  }

  /** Adding an effect from a source the graph code offers for a chosen target keeps a valid
      design valid, when the offered names are names of the design. */
  lemma AddingOfferedSourceKeepsDesignValid(input: StudyDesign, summary: string, allNodeNames: seq<string>, e: Effect)
    requires Validation(input, summary).valid
    requires forall c :: c in allNodeNames ==> c in DesignNames(input)
    requires e.target != "" && e.target in DesignNames(input) && EffectSchema(e)
    requires e.source in GraphUtils.AvailableSources(e.target, allNodeNames, EffectsOf(input))
    ensures Validation(WithEffect(input, e), summary).valid
  {
    ValidationCharacterization(input, summary);
    WithEffectFacts(input, e);
    GraphUtils.AvailableSourcesMembers(e.target, allNodeNames, EffectsOf(input), e.source);
    GraphUtils.AvailableSourceKeepsAcyclic(e.target, allNodeNames, EffectsOf(input), e);
    ValidationCharacterization(WithEffect(input, e), summary);
  }

  /** Adding an effect to a target the graph code offers for a chosen source keeps a valid
      design valid, when the offered names are names of the design. */
  lemma AddingOfferedTargetKeepsDesignValid(input: StudyDesign, summary: string, allNodeNames: seq<string>, e: Effect)
    requires Validation(input, summary).valid
    requires forall c :: c in allNodeNames ==> c in DesignNames(input)
    requires e.source != "" && e.source in DesignNames(input) && EffectSchema(e)
    requires e.target in GraphUtils.AvailableTargets(e.source, allNodeNames, EffectsOf(input))
    ensures Validation(WithEffect(input, e), summary).valid
  {
    ValidationCharacterization(input, summary);
    WithEffectFacts(input, e);
    GraphUtils.AvailableTargetsMembers(e.source, allNodeNames, EffectsOf(input), e.target);
    GraphUtils.AvailableTargetKeepsAcyclic(e.source, allNodeNames, EffectsOf(input), e);
    ValidationCharacterization(WithEffect(input, e), summary);
  }

  /** A name the graph code withholds as a source for a target (other than the target itself)
      would make the design invalid if chosen anyway. */
  lemma WithheldSourceInvalidatesDesign(input: StudyDesign, summary: string, allNodeNames: seq<string>, e: Effect)
    requires e.target != "" && e.source != e.target
    requires e.source in allNodeNames && e.source !in GraphUtils.AvailableSources(e.target, allNodeNames, EffectsOf(input))
    ensures !Validation(WithEffect(input, e), summary).valid
  {
    WithEffectFacts(input, e);
    GraphUtils.WithheldSourceClosesCycle(e.target, allNodeNames, EffectsOf(input), e);
    ValidationCharacterization(WithEffect(input, e), summary);
  }

  /** A name the graph code withholds as a target for a source (other than the source itself)
      would make the design invalid if chosen anyway. */
  lemma WithheldTargetInvalidatesDesign(input: StudyDesign, summary: string, allNodeNames: seq<string>, e: Effect)
    requires e.source != "" && e.target != e.source
    requires e.target in allNodeNames && e.target !in GraphUtils.AvailableTargets(e.source, allNodeNames, EffectsOf(input))
    ensures !Validation(WithEffect(input, e), summary).valid
  {
    WithEffectFacts(input, e);
    GraphUtils.WithheldTargetClosesCycle(e.source, allNodeNames, EffectsOf(input), e);
    ValidationCharacterization(WithEffect(input, e), summary);
  }

  // ---------------------------------------------------------------------------
  // The empty name: "nothing chosen yet", and also a name the schema accepts
  // ---------------------------------------------------------------------------

  /** An ordinal instrument `a` with one item named `""`, and the effect `"" -> a`. */
  function EmptyItemDesign(): StudyDesign {
    var inst := StudyNode("instrument", "a", VarOrdinal, Some(["low", "high"]),
                          Some(Distribution(DistUniform, None, None, None, None)),
                          Some([InstrumentItem("q1", "")]), None);
    StudyDesign("cohort", Some([inst]), Some([GraphUtils.Link("", "a")]))
  }

  /** The example design passes the schema, its names `a` and `""` are distinct, and its one effect is resolved. */
  lemma EmptyItemDesignFacts()
    ensures StudyDesignSchema(EmptyItemDesign())
    ensures EntryNames(DesignEntries(EmptyItemDesign())) == ["a", ""]
    ensures DesignNames(EmptyItemDesign()) == {"a", ""}
    ensures EffectsOf(EmptyItemDesign()) == [GraphUtils.Link("", "a")]
  {
    var input := EmptyItemDesign();
    assert StudyNodeSchema(input.variables.value[0]);
    var items := [InstrumentItem("q1", "")];
    assert ItemEntries(items, 0) == [NameEntry("", ItemPath(0, 0), true)] by {
      assert items[..0] == [];
    }
    assert [input.variables.value[0]][..0] == [];
    assert DesignEntries(input) == [NameEntry("a", VariablePath(0), false), NameEntry("", ItemPath(0, 0), true)];
  }

  /** As written, that design is valid, the graph code offers `a` as a source for the item `""`
      (taking it for "no target chosen"), and adding the offered effect makes the design invalid. */
  lemma EmptyItemNameBreaksOfferedSafety(summary: string)
    ensures Validation(EmptyItemDesign(), summary).valid
    ensures "a" in GraphUtils.AvailableSources("", ["a", ""], EffectsOf(EmptyItemDesign()))
    ensures !Validation(WithEffect(EmptyItemDesign(), GraphUtils.Link("a", "")), summary).valid
  {
    var input := EmptyItemDesign();
    var e := GraphUtils.Link("a", "");
    EmptyItemDesignFacts();
    assert Distinct(["a", ""]);
    assert EffectsResolved(EffectsOf(input), DesignNames(input));
    GraphUtils.EmptyNameGraphs();
    ValidationCharacterization(input, summary);
    WithEffectFacts(input, e);
    assert EffectsOf(input) + [e] == [GraphUtils.Link("", "a"), GraphUtils.Link("a", "")];
    ValidationCharacterization(WithEffect(input, e), summary);
  }

  /** With the choice kept apart from the names, an offered source keeps a valid design valid
      for every chosen target, the empty name included. */
  lemma AddingSelectedSourceKeepsDesignValid(input: StudyDesign, summary: string, allNodeNames: seq<string>, e: Effect)
    requires Validation(input, summary).valid
    requires forall c :: c in allNodeNames ==> c in DesignNames(input)
    requires e.target in DesignNames(input) && EffectSchema(e)
    requires e.source in GraphUtils.SelectedSources(Some(e.target), allNodeNames, EffectsOf(input))
    ensures Validation(WithEffect(input, e), summary).valid
  {
    ValidationCharacterization(input, summary);
    WithEffectFacts(input, e);
    GraphUtils.SourcesForMembers(GraphUtils.EffectGraph(EffectsOf(input)), e.target, allNodeNames, e.source);
    GraphUtils.SelectedSourceKeepsAcyclic(e.target, allNodeNames, EffectsOf(input), e);
    ValidationCharacterization(WithEffect(input, e), summary);
  }

  /** With the choice kept apart from the names, an offered target keeps a valid design valid
      for every chosen source, the empty name included. */
  lemma AddingSelectedTargetKeepsDesignValid(input: StudyDesign, summary: string, allNodeNames: seq<string>, e: Effect)
    requires Validation(input, summary).valid
    requires forall c :: c in allNodeNames ==> c in DesignNames(input)
    requires e.source in DesignNames(input) && EffectSchema(e)
    requires e.target in GraphUtils.SelectedTargets(Some(e.source), allNodeNames, EffectsOf(input))
    ensures Validation(WithEffect(input, e), summary).valid
  {
    ValidationCharacterization(input, summary);
    WithEffectFacts(input, e);
    GraphUtils.TargetsForMembers(GraphUtils.EffectGraph(EffectsOf(input)), e.source, allNodeNames, e.target);
    GraphUtils.SelectedTargetKeepsAcyclic(e.source, allNodeNames, EffectsOf(input), e);
    ValidationCharacterization(WithEffect(input, e), summary);
  }
}
