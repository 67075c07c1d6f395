/**
 * The shared entity model of a study design: the shapes of nodes, distributions,
 * effects and designs, and the declarative constraints the schema places on them.
 *
 * Values here are the loosely typed records that reach the schema check: the
 * literal tags of the source (`kind`, `dataType`, a distribution's `type`, an
 * effect's `type`, the study type) are strings, and keys a schema declares
 * optional or may find missing are `Option`s. The schema predicates say which
 * of these records the schema accepts.
 */
module StudyModel {

  datatype Option<+T> = None | Some(value: T)

  // ---------------------------------------------------------------------------
  // Numeric ranges
  // ---------------------------------------------------------------------------

  const MaxMagnitude: real := 1000000000.0

  /** `PositiveNumber`: greater than zero and at most one billion. */
  predicate IsPositiveNumber(x: real) {
    0.0 < x <= MaxMagnitude
  }

  /** The range of an effect coefficient, `-1 <= number <= 1`. */
  predicate IsCoefficient(x: real) {
    -1.0 <= x <= 1.0
  }

  // ---------------------------------------------------------------------------
  // Variable names: /^[^0-9\s]\S*$/ and at most 70 UTF-16 code units
  // ---------------------------------------------------------------------------

  predicate IsAsciiDigit(c: char) {
    '0' <= c <= '9'
  }

  /** The characters the regular-expression class `\s` matches (white space and line terminators). */
  predicate IsWhitespace(c: char) {
    || c == '\t' || c == '\n' || c == '\U{B}' || c == '\U{C}' || c == '\r' || c == ' '
    || c == '\U{A0}' || c == '\U{1680}' || ('\U{2000}' <= c <= '\U{200A}')
    || c == '\U{2028}' || c == '\U{2029}' || c == '\U{202F}' || c == '\U{205F}' || c == '\U{3000}'
    || c == '\U{FEFF}'
  }

  /** The length of a string as the host language counts it: characters outside the BMP take two units. */
  function Utf16Length(s: string): (n: nat)
    ensures |s| <= n <= 2 * |s|
  {
    if s == [] then 0
    else Utf16Length(s[..|s| - 1]) + (if s[|s| - 1] as int >= 0x1_0000 then 2 else 1)
  }

  /** Matches the tail `\S*$` of the name pattern against `s[i..]`. */
  predicate MatchesNonSpaceTail(s: string, i: nat)
    requires i <= |s|
    decreases |s| - i
  {
    i == |s| || (!IsWhitespace(s[i]) && MatchesNonSpaceTail(s, i + 1))
  }

  /** The whole pattern `^[^0-9\s]\S*$`: one non-digit, non-space character, then non-space characters. */
  predicate MatchesNamePattern(s: string) {
    |s| > 0 && !IsAsciiDigit(s[0]) && !IsWhitespace(s[0]) && MatchesNonSpaceTail(s, 1)
  }

  /** `VariableName`: the pattern and at most 70 code units. */
  predicate IsVariableName(s: string) {
    MatchesNamePattern(s) && Utf16Length(s) <= 70
  }

  lemma {:induction false} NonSpaceTailMeansNoSpace(s: string, i: nat)
    requires i <= |s|
    ensures MatchesNonSpaceTail(s, i) <==> forall j :: i <= j < |s| ==> !IsWhitespace(s[j])
    decreases |s| - i
  {
    if i < |s| {
      NonSpaceTailMeansNoSpace(s, i + 1);
    }
  }

  /** A valid variable name is non-empty, starts with neither a digit nor white space,
      contains no white space, and is at most 70 units (so at most 70 characters) long. */
  lemma VariableNameCharacterization(s: string)
    ensures IsVariableName(s) <==>
      && |s| > 0
      && !IsAsciiDigit(s[0])
      && (forall j :: 0 <= j < |s| ==> !IsWhitespace(s[j]))
      && Utf16Length(s) <= 70
    ensures IsVariableName(s) ==> |s| <= 70
  {
    if |s| > 0 {
      NonSpaceTailMeansNoSpace(s, 1);
    }
  }

  // ---------------------------------------------------------------------------
  // Variable types and the distributions each allows
  // ---------------------------------------------------------------------------

  const VarContinuous: string := "continuous"
  const VarNominal: string := "nominal"
  const VarOrdinal: string := "ordinal"

  const DistNormal: string := "normal"
  const DistUniform: string := "uniform"

  /** The keys of `ValidDistributions`. */
  datatype VariableType = Continuous | Ordinal | Nominal

  function TypeName(k: VariableType): string {
    match k
    case Continuous => VarContinuous
    case Ordinal => VarOrdinal
    case Nominal => VarNominal
  }

  function ParseVariableType(s: string): (r: Option<VariableType>)
    ensures r.Some? ==> TypeName(r.value) == s
    ensures forall k :: TypeName(k) == s ==> r == Some(k)
  {
    if s == VarContinuous then Some(Continuous)
    else if s == VarOrdinal then Some(Ordinal)
    else if s == VarNominal then Some(Nominal)
    else None
  }

  /** `ValidDistributions`: the distribution tags offered for each variable type. */
  function ValidDistributions(k: VariableType): seq<string> {
    match k
    case Continuous => [DistNormal, DistUniform]
    case Ordinal => [DistNormal, DistUniform]
    case Nominal => [DistUniform]
  }

  /** `DefaultDistributions`: the tag a new variable of type `k` starts with; it is always one `k` allows. */
  function DefaultDistribution(k: VariableType): (d: string)
    ensures d in ValidDistributions(k)
  {
    match k
    case Continuous => DistNormal
    case Ordinal => DistNormal
    case Nominal => DistUniform
  }

  // ---------------------------------------------------------------------------
  // Shapes
  // ---------------------------------------------------------------------------

  /** A distribution record: its `type` tag and whichever numeric parameters it carries. */
  datatype Distribution = Distribution(
    distType: string,
    mean: Option<real>,
    stdDev: Option<real>,
    min: Option<real>,
    max: Option<real>)

  datatype InstrumentItem = InstrumentItem(id: string, name: string)

  datatype ScaleItem = ScaleItem(itemId: string, reverse: bool)

  datatype Scale = Scale(id: string, name: string, items: seq<ScaleItem>)

  /** A variable (`kind` "variable") or an instrument (`kind` "instrument"). */
  datatype StudyNode = StudyNode(
    kind: string,
    name: string,
    dataType: string,
    categories: Option<seq<string>>,
    distribution: Option<Distribution>,
    items: Option<seq<InstrumentItem>>,
    scales: Option<seq<Scale>>)

  const EffectCorrelation: string := "correlation"

  /** A directed effect `source -> target`, naming its endpoints. */
  datatype Effect = Effect(id: string, source: string, target: string, effectType: string, coefficient: real)

  datatype StudyDesign = StudyDesign(
    studyType: string,
    variables: Option<seq<StudyNode>>,
    effects: Option<seq<Effect>>)

  // ---------------------------------------------------------------------------
  // Schemas. Keys a schema does not declare are ignored, as the schema library does by default.
  // ---------------------------------------------------------------------------

  /** `{type: 'normal', mean: number, stdDev: PositiveNumber}` */
  predicate NormalDistribution(d: Distribution) {
    d.distType == DistNormal && d.mean.Some? && d.stdDev.Some? && IsPositiveNumber(d.stdDev.value)
  }

  /** `{type: 'uniform', min: number, max: number}`; the order of `min` and `max` is not checked. */
  predicate UniformDistribution(d: Distribution) {
    d.distType == DistUniform && d.min.Some? && d.max.Some?
  }

  /** `{type: 'uniform'}`: the tag alone, with no parameters declared. */
  predicate CategoricalUniform(d: Distribution) {
    d.distType == DistUniform
  }

  /** `CategoryList`: an array of at least two strings. */
  predicate CategoryList(c: Option<seq<string>>) {
    c.Some? && |c.value| >= 2
  }

  /** The distributions a continuous node accepts: `NormalDistribution.or(UniformDistribution)`. */
  predicate ContinuousDistribution(d: Distribution) {
    NormalDistribution(d) || UniformDistribution(d)
  }

  /** The distributions an ordinal node accepts: `NormalDistribution.or(CategoricalUniform)`. */
  predicate OrdinalDistribution(d: Distribution) {
    NormalDistribution(d) || CategoricalUniform(d)
  }

  /** `VariableSchema`: the continuous, ordinal and nominal alternatives. */
  predicate VariableSchema(n: StudyNode) {
    && n.kind == "variable"
    && IsVariableName(n.name)
    && n.distribution.Some?
    && (
      || (n.dataType == VarContinuous && ContinuousDistribution(n.distribution.value))
      || (n.dataType == VarOrdinal && CategoryList(n.categories) && OrdinalDistribution(n.distribution.value))
      || (n.dataType == VarNominal && CategoryList(n.categories) && CategoricalUniform(n.distribution.value)))
  }

  /** `InstrumentSchema`: the ordinal and nominal alternatives; the name and the item names are any strings. */
  predicate InstrumentSchema(n: StudyNode) {
    && n.kind == "instrument"
    && CategoryList(n.categories)
    && n.items.Some?
    && n.distribution.Some?
    && (
      || (n.dataType == VarOrdinal && OrdinalDistribution(n.distribution.value))
      || (n.dataType == VarNominal && CategoricalUniform(n.distribution.value)))
  }

  predicate StudyNodeSchema(n: StudyNode) {
    VariableSchema(n) || InstrumentSchema(n)
  }

  predicate EffectSchema(e: Effect) {
    e.effectType == EffectCorrelation && IsCoefficient(e.coefficient)
  }

  predicate IsStudyType(s: string) {
    s == "cross-sectional" || s == "cohort" || s == "case-control"
  }

  /** `StudyDesignSchema`: a study type, and optional arrays of nodes and effects. */
  predicate StudyDesignSchema(d: StudyDesign) {
    && IsStudyType(d.studyType)
    && (d.variables.Some? ==> forall n :: n in d.variables.value ==> StudyNodeSchema(n))
    && (d.effects.Some? ==> forall e :: e in d.effects.value ==> EffectSchema(e))
  }

  // ---------------------------------------------------------------------------
  // Facts about the schemas
  // ---------------------------------------------------------------------------

  /** What an accepted node guarantees: its kind, a valid name for variables, a category
      list for ordinal and nominal data, a positive bounded standard deviation for a
      normal distribution, and a distribution tag the type allows. */
  lemma AcceptedNodeFacts(n: StudyNode)
    requires StudyNodeSchema(n)
    ensures n.kind == "variable" || n.kind == "instrument"
    ensures n.kind == "variable" ==> IsVariableName(n.name)
    ensures ParseVariableType(n.dataType).Some?
    ensures n.kind == "instrument" ==> n.dataType != VarContinuous && n.items.Some?
    ensures n.dataType != VarContinuous ==> n.categories.Some? && |n.categories.value| >= 2
    ensures n.distribution.Some?
    ensures n.distribution.value.distType in ValidDistributions(ParseVariableType(n.dataType).value)
    ensures n.distribution.value.distType == DistNormal ==>
              n.distribution.value.stdDev.Some? && 0.0 < n.distribution.value.stdDev.value <= MaxMagnitude
    ensures n.dataType == VarNominal ==> n.distribution.value.distType == DistUniform
    ensures n.dataType == VarContinuous ==>
              NormalDistribution(n.distribution.value) || UniformDistribution(n.distribution.value)
  {
  }

  /** What an accepted design guarantees: one of the three study types, and every effect a
      correlation whose coefficient lies between -1 and 1. */
  lemma AcceptedDesignFacts(d: StudyDesign)
    requires StudyDesignSchema(d)
    ensures d.studyType == "cross-sectional" || d.studyType == "cohort" || d.studyType == "case-control"
    ensures d.effects.Some? ==> forall e :: e in d.effects.value ==> e.effectType == EffectCorrelation && -1.0 <= e.coefficient <= 1.0
    ensures d.variables.Some? ==> forall n :: n in d.variables.value ==> n.kind == "variable" || n.kind == "instrument"
  {
  }

  /** `variables` and `effects` are optional: a design with neither is accepted exactly when its study type is. */
  lemma BareDesignAccepted(studyType: string)
    ensures StudyDesignSchema(StudyDesign(studyType, None, None)) <==> IsStudyType(studyType)
    ensures StudyDesignSchema(StudyDesign(studyType, Some([]), Some([]))) <==> IsStudyType(studyType)
  {
  }

  /** The instrument schema places no constraint on the instrument's name or on its items' names. */
  lemma InstrumentNamesUnconstrained(n: StudyNode, name: string, items: seq<InstrumentItem>)
    requires InstrumentSchema(n)
    ensures InstrumentSchema(n.(name := name, items := Some(items)))
  {
  }
}
