/**
 * The study-design validator. After the schema check it runs, in order: a
 * duplicate-name check over variables and instrument items, per-effect checks
 * for a missing source, a missing target and a self-reference, and a
 * depth-first cycle search over the effects whose endpoints both name known
 * nodes. Every finding becomes a `{path, message}` error; the design is valid
 * exactly when there are none.
 */
module Validator {
  import opened StudyModel
  import opened Digraph

  datatype ValidationError = ValidationError(path: string, message: string)

  datatype ValidationResult = ValidationResult(valid: bool, errors: seq<ValidationError>)

  // ---------------------------------------------------------------------------
  // Error paths
  // ---------------------------------------------------------------------------

  /** Where an error points: the schema, `variables[i]`, `variables[i].items[j]`, `effects[i]`, `effects`. */
  datatype ErrorPath =
    | SchemaPath
    | VariablePath(index: nat)
    | ItemPath(index: nat, item: nat)
    | EffectPath(index: nat)
    | EffectsPath

  function DigitChar(d: nat): (c: char)
    requires d < 10
    ensures IsAsciiDigit(c)
  {
    ('0' as int + d) as char
  }

  /** The decimal numeral of `n`, as a template string renders an index. */
  function NatToString(n: nat): (s: string)
    ensures |s| > 0 && AllDigits(s)
    decreases n
  {
    if n < 10 then [DigitChar(n)] else NatToString(n / 10) + [DigitChar(n % 10)]
  }

  predicate AllDigits(s: string) {
    forall i :: 0 <= i < |s| ==> IsAsciiDigit(s[i])
  }

  /** The value of a numeral. */
  function ParseNat(s: string): int
    decreases |s|
  {
    if s == [] then 0 else ParseNat(s[..|s| - 1]) * 10 + (s[|s| - 1] as int - '0' as int)
  }

  lemma {:induction false} NatToStringRoundTrip(n: nat)
    ensures ParseNat(NatToString(n)) == n
    decreases n
  {
    if n >= 10 {
      NatToStringRoundTrip(n / 10);
      var s := NatToString(n);
      assert s[..|s| - 1] == NatToString(n / 10);
    }
  }

  function PathText(p: ErrorPath): string {
    match p
    case SchemaPath => "schema"
    case VariablePath(i) => "variables[" + (NatToString(i) + "]")
    case ItemPath(i, j) => "variables[" + (NatToString(i) + ("].items[" + (NatToString(j) + "]")))
    case EffectPath(i) => "effects[" + (NatToString(i) + "]")
    case EffectsPath => "effects"
  }

  lemma PrefixCancel(p: string, a: string, b: string)
    requires p + a == p + b
    ensures a == b
  {
    assert a == (p + a)[|p|..];
    assert b == (p + b)[|p|..];
  }

  /** A numeral followed by a non-digit splits in one way only. */
  lemma NumeralSplit(d1: string, x1: string, d2: string, x2: string)
    requires AllDigits(d1) && AllDigits(d2)
    requires |x1| > 0 && |x2| > 0 && !IsAsciiDigit(x1[0]) && !IsAsciiDigit(x2[0])
    requires d1 + x1 == d2 + x2
    ensures d1 == d2 && x1 == x2
  {
    if |d1| < |d2| {
      DigitAtLength(d1, x1, d2, x2);
      assert false;
    } else if |d2| < |d1| {
      DigitAtLength(d2, x2, d1, x1);
      assert false;
    } else {
      assert d1 == (d1 + x1)[..|d1|];
      assert d2 == (d2 + x2)[..|d2|];
      assert x1 == (d1 + x1)[|d1|..];
      assert x2 == (d2 + x2)[|d2|..];
    }
  }

  /** A shorter numeral cannot be followed by a non-digit where a longer one still has digits. */
  lemma DigitAtLength(d1: string, x1: string, d2: string, x2: string)
    requires AllDigits(d2) && |d1| < |d2| && |x1| > 0 && !IsAsciiDigit(x1[0])
    ensures d1 + x1 != d2 + x2
  {
    assert (d1 + x1)[|d1|] == x1[0];
    assert (d2 + x2)[|d1|] == d2[|d1|];
  }

  lemma NumeralInjective(i: nat, j: nat)
    requires NatToString(i) == NatToString(j)
    ensures i == j
  {
    NatToStringRoundTrip(i);
    NatToStringRoundTrip(j);
  }

  lemma VariablePathsInjective(i: nat, k: nat)
    requires PathText(VariablePath(i)) == PathText(VariablePath(k))
    ensures i == k
  {
    PrefixCancel("variables[", NatToString(i) + "]", NatToString(k) + "]");
    NumeralSplit(NatToString(i), "]", NatToString(k), "]");
    NumeralInjective(i, k);
  }

  lemma VariableIsNotItem(i: nat, k: nat, l: nat)
    ensures PathText(VariablePath(i)) != PathText(ItemPath(k, l))
  {
    var rest := "].items[" + (NatToString(l) + "]");
    if PathText(VariablePath(i)) == PathText(ItemPath(k, l)) {
      PrefixCancel("variables[", NatToString(i) + "]", NatToString(k) + rest);
      NumeralSplit(NatToString(i), "]", NatToString(k), rest);
    }
  }

  lemma ItemPathsInjective(i: nat, j: nat, k: nat, l: nat)
    requires PathText(ItemPath(i, j)) == PathText(ItemPath(k, l))
    ensures i == k && j == l
  {
    var rest1 := "].items[" + (NatToString(j) + "]");
    var rest2 := "].items[" + (NatToString(l) + "]");
    PrefixCancel("variables[", NatToString(i) + rest1, NatToString(k) + rest2);
    NumeralSplit(NatToString(i), rest1, NatToString(k), rest2);
    NumeralInjective(i, k);
    PrefixCancel("].items[", NatToString(j) + "]", NatToString(l) + "]");
    NumeralSplit(NatToString(j), "]", NatToString(l), "]");
    NumeralInjective(j, l);
  }

  lemma EffectPathsInjective(i: nat, k: nat)
    requires PathText(EffectPath(i)) == PathText(EffectPath(k))
    ensures i == k
  {
    PrefixCancel("effects[", NatToString(i) + "]", NatToString(k) + "]");
    NumeralSplit(NatToString(i), "]", NatToString(k), "]");
    NumeralInjective(i, k);
  }

  /** The first characters of the rendered paths: `s`, `v` or `e`. */
  lemma PathTextStart(p: ErrorPath)
    ensures |PathText(p)| >= 6
    ensures PathText(p)[0] == (if p.SchemaPath? then 's' else if p.VariablePath? || p.ItemPath? then 'v' else 'e')
    ensures p.EffectPath? ==> |PathText(p)| >= 10
    ensures p.EffectsPath? ==> |PathText(p)| == 7
  {
  }

  /** Distinct paths render as distinct strings, so an error's path string names one place. */
  lemma PathTextInjective(p: ErrorPath, q: ErrorPath)
    requires PathText(p) == PathText(q)
    ensures p == q
  {
    PathTextStart(p);
    PathTextStart(q);
    match p
    case SchemaPath =>
    case VariablePath(i) =>
      match q {
        case VariablePath(k) => VariablePathsInjective(i, k);
        case ItemPath(k, l) => VariableIsNotItem(i, k, l);
        case _ =>
      }
    case ItemPath(i, j) =>
      match q {
        case VariablePath(k) => VariableIsNotItem(k, i, j);
        case ItemPath(k, l) => ItemPathsInjective(i, j, k, l);
        case _ =>
      }
    case EffectPath(i) =>
      match q {
        case EffectPath(k) => EffectPathsInjective(i, k);
        case _ =>
      }
    case EffectsPath =>
  }

  // ---------------------------------------------------------------------------
  // Messages
  // ---------------------------------------------------------------------------

  const CycleMessage: string := "Cycle detected in variable relationships"

  const CycleError: ValidationError := ValidationError(PathText(EffectsPath), CycleMessage)

  function SchemaError(summary: string): ValidationError {
    ValidationError(PathText(SchemaPath), summary)
  }

  // ---------------------------------------------------------------------------
  // Specification: duplicate names
  // ---------------------------------------------------------------------------

  /** A name met while walking the variables: a variable's own name, or one of an instrument's item names. */
  datatype NameEntry = NameEntry(name: string, path: ErrorPath, isItem: bool)

  function ItemEntries(items: seq<InstrumentItem>, index: nat): seq<NameEntry>
    decreases |items|
  {
    if items == [] then []
    else
      var j := |items| - 1;
      ItemEntries(items[..j], index) + [NameEntry(items[j].name, ItemPath(index, j), true)]
  }

  /** The names a node contributes, in traversal order: its own name, then its items' names. */
  function NodeEntries(v: StudyNode, index: nat): seq<NameEntry> {
    [NameEntry(v.name, VariablePath(index), false)]
      + (if v.kind == "instrument" && v.items.Some? then ItemEntries(v.items.value, index) else [])
  }

  /** All names met while walking the variables, in traversal order. */
  function NameEntries(variables: seq<StudyNode>): seq<NameEntry>
    decreases |variables|
  {
    if variables == [] then []
    else
      var i := |variables| - 1;
      NameEntries(variables[..i]) + NodeEntries(variables[i], i)
  }

  function EntryNames(entries: seq<NameEntry>): (r: seq<string>)
    ensures |r| == |entries|
    ensures forall k :: 0 <= k < |entries| ==> r[k] == entries[k].name
    decreases |entries|
  {
    if entries == [] then [] else EntryNames(entries[..|entries| - 1]) + [entries[|entries| - 1].name]
  }

  function DuplicateError(e: NameEntry): ValidationError {
    ValidationError(PathText(e.path), (if e.isItem then "Duplicate item name: " else "Duplicate variable name: ") + e.name)
  }

  /** One error for each entry whose name was already met earlier in the traversal. */
  function DuplicateErrors(entries: seq<NameEntry>): seq<ValidationError>
    decreases |entries|
  {
    if entries == [] then []
    else
      var init, e := entries[..|entries| - 1], entries[|entries| - 1];
      DuplicateErrors(init) + (if e.name in EntryNames(init) then [DuplicateError(e)] else [])
  }

  function Members(s: seq<string>): set<string> {
    set x | x in s
  }

  function DesignEntries(input: StudyDesign): seq<NameEntry> {
    if input.variables.Some? then NameEntries(input.variables.value) else []
  }

  /** Every variable, instrument and item name of the design. */
  function DesignNames(input: StudyDesign): set<string> {
    Members(EntryNames(DesignEntries(input)))
  }

  // ---------------------------------------------------------------------------
  // Specification: effects
  // ---------------------------------------------------------------------------

  /** The three independent checks on effect `index`, in the order they are made. */
  function EffectCheck(e: Effect, index: nat, names: set<string>): seq<ValidationError> {
    var path := PathText(EffectPath(index));
    (if e.source !in names then [ValidationError(path, "Source variable not found: " + e.source)] else [])
      + (if e.target !in names then [ValidationError(path, "Target variable not found: " + e.target)] else [])
      + (if e.source == e.target then [ValidationError(path, "Self-reference not allowed: " + e.source)] else [])
  }

  function EffectErrors(effects: seq<Effect>, names: set<string>): seq<ValidationError>
    decreases |effects|
  {
    if effects == [] then []
    else
      var i := |effects| - 1;
      EffectErrors(effects[..i], names) + EffectCheck(effects[i], i, names)
  }

  /** The graph the cycle search runs on: only effects whose source and target are both known names. */
  ghost function ResolvedGraph(effects: seq<Effect>, names: set<string>): Graph {
    set e | e in effects && e.source in names && e.target in names :: (e.source, e.target)
  }

  function EffectsOf(input: StudyDesign): seq<Effect> {
    if input.effects.Some? then input.effects.value else []
  }

  /** The cycle error, when the design has effects and the resolved ones form a cycle. */
  ghost function CycleErrors(input: StudyDesign): seq<ValidationError> {
    if input.effects.Some? && !Acyclic(ResolvedGraph(input.effects.value, DesignNames(input))) then [CycleError] else []
  }

  /** What validating `input` yields; `schemaSummary` is the schema library's description of a failure.
      A design without effects gets no effect errors, since `EffectErrors` of no effects is empty. */
  ghost function Validation(input: StudyDesign, schemaSummary: string): ValidationResult {
    if !StudyDesignSchema(input) then ValidationResult(false, [SchemaError(schemaSummary)])
    else
      var errors := DuplicateErrors(DesignEntries(input)) + EffectErrors(EffectsOf(input), DesignNames(input)) + CycleErrors(input);
      ValidationResult(errors == [], errors)
  }

  // ---------------------------------------------------------------------------
  // Small facts used by the loops
  // ---------------------------------------------------------------------------

  lemma DuplicateErrorsAppend(es: seq<NameEntry>, e: NameEntry)
    ensures DuplicateErrors(es + [e]) == DuplicateErrors(es) + (if e.name in EntryNames(es) then [DuplicateError(e)] else [])
  {
    assert (es + [e])[..|es|] == es;
  }

  lemma ResolvedGraphAppend(effects: seq<Effect>, e: Effect, names: set<string>)
    ensures ResolvedGraph(effects + [e], names) ==
      ResolvedGraph(effects, names) + (if e.source in names && e.target in names then {(e.source, e.target)} else {})
  {
    assert forall x :: x in effects + [e] <==> x in effects || x == e;
  }

  lemma ResolvedGraphEndpoints(effects: seq<Effect>, names: set<string>)
    ensures forall u, v :: Edge(ResolvedGraph(effects, names), u, v) ==> u in names && v in names
  {
  }

  // ---------------------------------------------------------------------------
  // Step 2: variable and item names
  // ---------------------------------------------------------------------------

  predicate Distinct(s: seq<string>) {
    forall a, b :: 0 <= a < b < |s| ==> s[a] != s[b]
  }

  lemma MembersAppend(s: seq<string>, x: string)
    ensures Members(s + [x]) == Members(s) + {x}
  {
  }

  lemma DistinctAppend(s: seq<string>, x: string)
    requires Distinct(s) && x !in s
    ensures Distinct(s + [x])
  {
    var s' := s + [x];
    forall a, b | 0 <= a < b < |s'|
      ensures s'[a] != s'[b]
    {
      if b == |s| {
        assert s'[a] == s[a];
      }
    }
  }

  /** Recording one more entry: it is a duplicate exactly when its name was already recorded,
      and the recorded names stay the names of the entries seen, each once. */
  lemma RecordEntry(seen: seq<NameEntry>, e: NameEntry, names: seq<string>)
    requires Members(names) == Members(EntryNames(seen)) && Distinct(names)
    ensures (e.name in names) == (e.name in EntryNames(seen))
    ensures DuplicateErrors(seen + [e]) == DuplicateErrors(seen) + (if e.name in names then [DuplicateError(e)] else [])
    ensures var names' := if e.name in names then names else names + [e.name];
      Members(names') == Members(EntryNames(seen + [e])) && Distinct(names')
  {
    assert e.name in names <==> e.name in Members(names);
    assert e.name in EntryNames(seen) <==> e.name in Members(EntryNames(seen));
    assert (seen + [e])[..|seen|] == seen;
    assert EntryNames(seen + [e]) == EntryNames(seen) + [e.name];
    MembersAppend(EntryNames(seen), e.name);
    if e.name !in names {
      MembersAppend(names, e.name);
      DistinctAppend(names, e.name);
    }
  }

  lemma NameEntriesStep(variables: seq<StudyNode>, index: nat)
    requires index < |variables|
    ensures NameEntries(variables[..index + 1]) == NameEntries(variables[..index]) + NodeEntries(variables[index], index)
  {
    assert variables[..index + 1][..index] == variables[..index];
  }

  lemma ItemEntriesStep(items: seq<InstrumentItem>, index: nat, j: nat)
    requires j < |items|
    ensures ItemEntries(items[..j + 1], index) == ItemEntries(items[..j], index) + [NameEntry(items[j].name, ItemPath(index, j), true)]
  {
    assert items[..j + 1][..j] == items[..j];
  }

  lemma SeqAssoc<T>(a: seq<T>, b: seq<T>, c: seq<T>)
    ensures (a + b) + c == a + (b + c)
  {
  }

  /** The walk over one instrument's items (variable `index`), continuing from the names
      recorded so far for the entries `seen`. */
  method CollectItemNames(items: seq<InstrumentItem>, index: nat, errors0: seq<ValidationError>,
                          names0: seq<string>, ghost seen: seq<NameEntry>)
    returns (errors: seq<ValidationError>, variableNames: seq<string>)
    requires errors0 == DuplicateErrors(seen)
    requires Members(names0) == Members(EntryNames(seen)) && Distinct(names0)
    ensures errors == DuplicateErrors(seen + ItemEntries(items, index))
    ensures Members(variableNames) == Members(EntryNames(seen + ItemEntries(items, index)))
    ensures Distinct(variableNames)
  {
    errors, variableNames := errors0, names0;
    ghost var done := seen;
    for iIndex := 0 to |items|
      invariant done == seen + ItemEntries(items[..iIndex], index)
      invariant errors == DuplicateErrors(done)
      invariant Members(variableNames) == Members(EntryNames(done)) && Distinct(variableNames)
    {
      var item := items[iIndex];
      ghost var entry := NameEntry(item.name, ItemPath(index, iIndex), true);
      ItemEntriesStep(items, index, iIndex);
      RecordEntry(done, entry, variableNames);
      if item.name in variableNames {
        errors := errors + [ValidationError(PathText(ItemPath(index, iIndex)), "Duplicate item name: " + item.name)];
      }
      if item.name !in variableNames {
        variableNames := variableNames + [item.name];
      }
      SeqAssoc(seen, ItemEntries(items[..iIndex], index), [entry]);
      done := done + [entry];
    }
    assert items[..|items|] == items;
  }

  /** Walks the variables, and the items of each instrument, recording each name and
      reporting every name already met. `variableNames` keeps insertion order without repeats. */
  method CollectNames(variables: seq<StudyNode>) returns (errors: seq<ValidationError>, variableNames: seq<string>)
    ensures errors == DuplicateErrors(NameEntries(variables))
    ensures Members(variableNames) == Members(EntryNames(NameEntries(variables)))
    ensures Distinct(variableNames)
  {
    errors := [];
    variableNames := [];
    ghost var seen: seq<NameEntry> := [];
    for index := 0 to |variables|
      invariant seen == NameEntries(variables[..index])
      invariant errors == DuplicateErrors(seen)
      invariant Members(variableNames) == Members(EntryNames(seen)) && Distinct(variableNames)
    {
      var v := variables[index];
      NameEntriesStep(variables, index);
      ghost var before := seen;
      ghost var own := NameEntry(v.name, VariablePath(index), false);
      RecordEntry(seen, own, variableNames);
      if v.name in variableNames {
        errors := errors + [ValidationError(PathText(VariablePath(index)), "Duplicate variable name: " + v.name)];
      }
      if v.name !in variableNames {
        variableNames := variableNames + [v.name];
      }
      seen := before + [own];
      if v.kind == "instrument" && v.items.Some? {
        errors, variableNames := CollectItemNames(v.items.value, index, errors, variableNames, seen);
        SeqAssoc(before, [own], ItemEntries(v.items.value, index));
      }
      seen := before + NodeEntries(v, index);
    }
    assert variables[..|variables|] == variables;
  }

  // ---------------------------------------------------------------------------
  // Step 3: effects
  // ---------------------------------------------------------------------------

  /** Checks every effect against the known names and builds the adjacency map of the resolved effects. */
  method CheckEffects(effects: seq<Effect>, variableNames: seq<string>)
    returns (errors: seq<ValidationError>, adj: map<string, seq<string>>)
    ensures errors == EffectErrors(effects, Members(variableNames))
    ensures AdjEdges(adj) == ResolvedGraph(effects, Members(variableNames))
  {
    ghost var names := Members(variableNames);
    errors := [];
    adj := map[];
    for index := 0 to |effects|
      invariant errors == EffectErrors(effects[..index], names)
      invariant AdjEdges(adj) == ResolvedGraph(effects[..index], names)
    {
      var eff := effects[index];
      assert effects[..index + 1] == effects[..index] + [eff];
      assert effects[..index + 1][..index] == effects[..index];
      ResolvedGraphAppend(effects[..index], eff, names);
      ghost var before := errors;
      var path := PathText(EffectPath(index));
      var sourceMissing := [];
      if eff.source !in variableNames {
        sourceMissing := [ValidationError(path, "Source variable not found: " + eff.source)];
      }
      var targetMissing := [];
      if eff.target !in variableNames {
        targetMissing := [ValidationError(path, "Target variable not found: " + eff.target)];
      }
      var selfLoop := [];
      if eff.source == eff.target {
        selfLoop := [ValidationError(path, "Self-reference not allowed: " + eff.source)];
      }
      errors := errors + sourceMissing + targetMissing + selfLoop;
      assert errors == before + EffectCheck(eff, index, names);
      if eff.source in variableNames && eff.target in variableNames {
        AdjEdgesAppend(adj, eff.source, eff.target);
        var neighbors := Neighbors(adj, eff.source);
        adj := adj[eff.source := neighbors + [eff.target]];
      }
    }
    assert effects[..|effects|] == effects;
  }

  // ---------------------------------------------------------------------------
  // Step 4: depth-first cycle search
  // ---------------------------------------------------------------------------

  /** The invariant of the depth-first search, over its state as values. `stack` lists the
      recursion stack in call order and is a walk in the graph; `finish` records when each
      node left the stack, and finishing times decrease along every edge out of a finished node. */
  ghost predicate SearchState(g: Graph, visited: set<string>, onStack: set<string>, stack: seq<string>,
                              finish: map<string, nat>, clock: nat)
  {
    && onStack <= visited
    && (forall x :: x in onStack <==> x in stack)
    && (stack == [] || IsPath(g, stack))
    && finish.Keys == visited - onStack
    && (forall u :: u in finish ==> finish[u] < clock)
    && (forall u, v :: u in finish && Edge(g, u, v) ==> v in finish && finish[v] < finish[u])
  }

  /** Entering an unvisited node along an edge from the top of the stack keeps the invariant. */
  lemma PushKeepsSearchState(g: Graph, visited: set<string>, onStack: set<string>, stack: seq<string>,
                             finish: map<string, nat>, clock: nat, node: string)
    requires SearchState(g, visited, onStack, stack, finish, clock)
    requires node !in visited
    requires stack != [] ==> Edge(g, stack[|stack| - 1], node)
    ensures SearchState(g, visited + {node}, onStack + {node}, stack + [node], finish, clock)
  {
    PathExtend(g, stack, node);
  }

  /** Leaving a node whose successors are all finished, and stamping it with the clock, keeps the invariant. */
  lemma PopKeepsSearchState(g: Graph, visited: set<string>, onStack: set<string>, stack: seq<string>,
                            finish: map<string, nat>, clock: nat, node: string)
    requires SearchState(g, visited, onStack + {node}, stack + [node], finish, clock)
    requires node !in onStack && (forall x :: x in onStack <==> x in stack)
    requires stack == [] || IsPath(g, stack)
    requires forall v :: Edge(g, node, v) ==> v in finish
    ensures SearchState(g, visited, onStack, stack, finish[node := clock], clock + 1)
  {
  }

  /** The search, with its visited set and recursion stack as fields, as the recursive
      function shares them between its calls. */
  class CycleSearch {
    const adj: map<string, seq<string>>
    var visited: set<string>
    var recursionStack: set<string>
    ghost var stack: seq<string>
    ghost var finish: map<string, nat>
    ghost var clock: nat

    ghost predicate Valid()
      reads this
    {
      SearchState(AdjEdges(adj), visited, recursionStack, stack, finish, clock)
    }

    constructor (adj: map<string, seq<string>>)
      ensures Valid()
      ensures this.adj == adj && visited == {} && recursionStack == {} && stack == [] && finish == map[]
    {
      this.adj := adj;
      visited := {};
      recursionStack := {};
      stack := [];
      finish := map[];
      clock := 0;
    }

    /** Explores `node`; true when some edge reaches a node still on the recursion stack. */
    method HasCycle(node: string) returns (found: bool)
      requires Valid()
      requires node !in visited
      requires stack != [] ==> Edge(AdjEdges(adj), stack[|stack| - 1], node)
      modifies this
      ensures old(visited) + {node} <= visited
      ensures found ==> !Acyclic(AdjEdges(adj))
      ensures !found ==> Valid() && stack == old(stack) && recursionStack == old(recursionStack)
      ensures !found ==> node in finish && forall u :: u in old(finish) ==> u in finish && finish[u] == old(finish)[u]
      decreases AdjNodes(adj) - visited
    {
      ghost var g := AdjEdges(adj);
      PushKeepsSearchState(g, visited, recursionStack, stack, finish, clock, node);
      visited := visited + {node};
      recursionStack := recursionStack + {node};
      stack := stack + [node];
      var neighbors := Neighbors(adj, node);
      for k := 0 to |neighbors|
        invariant Valid()
        invariant stack == old(stack) + [node] && recursionStack == old(recursionStack) + {node}
        invariant old(visited) + {node} <= visited
        invariant forall u :: u in old(finish) ==> u in finish && finish[u] == old(finish)[u]
        invariant forall j :: 0 <= j < k ==> neighbors[j] in finish
      {
        var neighbor := neighbors[k];
        AdjEdgesMeaning(adj, node, neighbor);
        if neighbor !in visited {
          NeighborInAdjNodes(adj, node, neighbor);
          var cycle := HasCycle(neighbor);
          if cycle {
            return true;
          }
        } else if neighbor in recursionStack {
          WalkBackEdgeIsCycle(g, stack, neighbor);
          return true;
        }
      }
      forall v | Edge(g, node, v)
        ensures v in finish
      {
        AdjEdgesMeaning(adj, node, v);
      }
      PopKeepsSearchState(g, visited, old(recursionStack), old(stack), finish, clock, node);
      recursionStack := recursionStack - {node};
      stack := old(stack);
      finish := finish[node := clock];
      clock := clock + 1;
      return false;
    }
  }

  /** Starts the search from every known name not yet visited, stopping at the first cycle. */
  method DetectCycle(variableNames: seq<string>, adj: map<string, seq<string>>) returns (cycleFound: bool)
    requires forall u, v :: Edge(AdjEdges(adj), u, v) ==> u in variableNames && v in variableNames
    ensures cycleFound <==> !Acyclic(AdjEdges(adj))
  {
    var search := new CycleSearch(adj);
    cycleFound := false;
    var k := 0;
    while k < |variableNames|
      invariant 0 <= k <= |variableNames|
      invariant search.Valid() && search.adj == adj && search.recursionStack == {} && search.stack == []
      invariant forall j :: 0 <= j < k ==> variableNames[j] in search.visited
    {
      var node := variableNames[k];
      if node !in search.visited {
        var found := search.HasCycle(node);
        if found {
          cycleFound := true;
          break;
        }
      }
      k := k + 1;
    }
    if !cycleFound {
      RankedGraphIsAcyclic(AdjEdges(adj), search.finish);
    }
  }

  // ---------------------------------------------------------------------------
  // The validator
  // ---------------------------------------------------------------------------

  /** `validateStudyDesign`: the schema check, then the name, effect and cycle checks, in that order. */
  method ValidateStudyDesign(input: StudyDesign, schemaSummary: string) returns (result: ValidationResult)
    ensures result == Validation(input, schemaSummary)
    ensures result.valid <==> result.errors == []
  {
    if !StudyDesignSchema(input) {
      return ValidationResult(false, [SchemaError(schemaSummary)]);
    }
    var errors: seq<ValidationError> := [];
    var variableNames: seq<string> := [];
    if input.variables.Some? {
      errors, variableNames := CollectNames(input.variables.value);
    }
    assert Members(variableNames) == DesignNames(input);
    if input.effects.Some? {
      var effectErrors, adj := CheckEffects(input.effects.value, variableNames);
      errors := errors + effectErrors;
      ResolvedGraphEndpoints(input.effects.value, Members(variableNames));
      var cycleFound := DetectCycle(variableNames, adj);
      if cycleFound {
        errors := errors + [CycleError];
      }
    } else {
      assert EffectErrors(EffectsOf(input), DesignNames(input)) == [];
    }
    return ValidationResult(|errors| == 0, errors);
  }
}
