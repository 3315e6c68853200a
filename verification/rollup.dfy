/**
 * The rollup projector `construct_rollup_pcd_seq`: an exact match first; for
 * a digit code that no step lists, the first step (in authored order) holding
 * a digit code of the same hierarchy category.  Every miss is a silent skip.
 */
module Rollup {
  import opened Wrappers
  import opened Decimal
  import opened Pathway
  import opened Hierarchy
  import opened Projector

  /** Codes the loop skips outright: the strings "None" and "". */
  predicate IsBlank(code: string) {
    code == "None" || code == ""
  }

  /** The category of a digit code via `cat_map[code.lstrip('0')]`; None for non-digit codes and misses. */
  function CodeCategory(catMap: map<string, string>, code: string): (r: Option<string>)
    ensures !IsAllDigits(code) ==> r.None?
    ensures IsAllDigits(code) && code in catMap && code[0] != '0' ==> r == Some(catMap[code])
  {
    if IsAllDigits(code) then LookupCode(catMap, code) else None
  }

  /**
   * The scan over one step's codes.  The source compares categories with
   * `is` (object identity); the model compares them as strings.
   */
  function HasCategory(codes: seq<string>, catMap: map<string, string>, cat: string): (b: bool)
    ensures b <==> exists i :: 0 <= i < |codes| && CodeCategory(catMap, codes[i]) == Some(cat)
    decreases |codes|
  {
    if |codes| == 0 then false
    else if CodeCategory(catMap, codes[0]) == Some(cat) then true
    else
      var b := HasCategory(codes[1..], catMap, cat);
      assert forall i :: 0 < i < |codes| ==> codes[1..][i - 1] == codes[i];
      b
  }

  /** The first step, in authored order, holding a digit code of category cat. */
  function CategoryStep(p: Pathway, catMap: map<string, string>, cat: string): (r: Option<nat>)
    ensures r.Some? ==> r.value < |p| && HasCategory(p[r.value].codes, catMap, cat)
    ensures r.Some? ==> forall j :: 0 <= j < r.value ==> !HasCategory(p[j].codes, catMap, cat)
    ensures r.None? <==> forall j :: 0 <= j < |p| ==> !HasCategory(p[j].codes, catMap, cat)
    decreases |p|
  {
    if |p| == 0 then None
    else if HasCategory(p[0].codes, catMap, cat) then Some(0)
    else
      var r := CategoryStep(p[1..], catMap, cat);
      match r
      case None =>
        assert forall j :: 0 <= j < |p| ==> !HasCategory(p[j].codes, catMap, cat) by {
          forall j | 0 < j < |p| ensures !HasCategory(p[j].codes, catMap, cat) {
            assert p[j] == p[1..][j - 1];
          }
        }
        None
      case Some(k) =>
        assert p[k + 1] == p[1..][k];
        assert forall j :: 0 <= j < k + 1 ==> !HasCategory(p[j].codes, catMap, cat) by {
          forall j | 0 < j < k + 1 ensures !HasCategory(p[j].codes, catMap, cat) {
            assert p[j] == p[1..][j - 1];
          }
        }
        Some(k + 1)
  }

  /** The step a code rolls up to: its category's first step, if it has a category. */
  function RollupStep(p: Pathway, catMap: map<string, string>, code: string): (r: Option<nat>)
    ensures r.Some? ==> CodeCategory(catMap, code).Some?
    ensures r.Some? ==> r.value < |p| && HasCategory(p[r.value].codes, catMap, CodeCategory(catMap, code).value)
    ensures r.Some? ==> forall j :: 0 <= j < r.value ==> !HasCategory(p[j].codes, catMap, CodeCategory(catMap, code).value)
    ensures CodeCategory(catMap, code).Some? && r.None? ==>
      forall j :: 0 <= j < |p| ==> !HasCategory(p[j].codes, catMap, CodeCategory(catMap, code).value)
  {
    match CodeCategory(catMap, code)
    case None => None
    case Some(cat) => CategoryStep(p, catMap, cat)
  }

  /**
   * What one observed code appends.  Blank codes append nothing; an exact
   * match wins; otherwise a digit code rolls up to the first step sharing its
   * category; a non-digit code, a lookup miss or a category no step has
   * appends nothing.
   */
  function RollupEmit(p: Pathway, mapping: map<string, string>, catMap: map<string, string>, code: string): (r: string)
    requires Named(p, mapping)
    ensures IsBlank(code) ==> r == ""
    ensures !IsBlank(code) && FirstStep(p, code).Some? ==> r == mapping[p[FirstStep(p, code).value].name]
    ensures FirstStep(p, code).None? && !IsAllDigits(code) ==> r == ""
    ensures FirstStep(p, code).None? && CodeCategory(catMap, code).None? ==> r == ""
    ensures !IsBlank(code) && FirstStep(p, code).None? && CodeCategory(catMap, code).Some? ==>
      var cat := CodeCategory(catMap, code).value;
      if CategoryStep(p, catMap, cat).Some? then r == mapping[p[CategoryStep(p, catMap, cat).value].name]
      else r == ""
  {
    if IsBlank(code) then ""
    else
      match FirstStep(p, code)
      case Some(k) => mapping[p[k].name]
      case None =>
        match RollupStep(p, catMap, code)
        case Some(k) => mapping[p[k].name]
        case None => ""
  }

  /** Whether an observed code produces a symbol in rollup mode. */
  predicate RollupMatches(p: Pathway, catMap: map<string, string>, code: string) {
    !IsBlank(code) && (FirstStep(p, code).Some? || RollupStep(p, catMap, code).Some?)
  }

  /** The number of observed codes that produce a symbol in rollup mode. */
  function RollupMatchCount(p: Pathway, catMap: map<string, string>, procs: seq<string>): (n: nat)
    ensures n <= |procs|
    decreases |procs|
  {
    if |procs| == 0 then 0
    else
      var n := RollupMatchCount(p, catMap, procs[..|procs| - 1]);
      if RollupMatches(p, catMap, procs[|procs| - 1]) then n + 1 else n
  }

  /** No observed code produces a symbol in rollup mode. */
  predicate NoneRollUp(p: Pathway, catMap: map<string, string>, procs: seq<string>) {
    forall i :: 0 <= i < |procs| ==> !RollupMatches(p, catMap, procs[i])
  }

  /** No match is counted exactly when no code produces a symbol. */
  lemma {:induction false} RollupMatchCountZero(p: Pathway, catMap: map<string, string>, procs: seq<string>)
    ensures RollupMatchCount(p, catMap, procs) == 0 <==> NoneRollUp(p, catMap, procs)
    decreases |procs|
  {
    if |procs| > 0 {
      RollupMatchCountZero(p, catMap, procs[..|procs| - 1]);
      NoneRollUpSnoc(p, catMap, procs);
    }
  }

  /** No code of procs rolls up exactly when none of its prefix does and its last code does not. */
  lemma NoneRollUpSnoc(p: Pathway, catMap: map<string, string>, procs: seq<string>)
    requires |procs| > 0
    ensures NoneRollUp(p, catMap, procs) <==>
      NoneRollUp(p, catMap, procs[..|procs| - 1]) && !RollupMatches(p, catMap, procs[|procs| - 1])
  {
    var prefix := procs[..|procs| - 1];
    assert forall i :: 0 <= i < |prefix| ==> prefix[i] == procs[i];
  }

  /** The loop of construct_rollup_pcd_seq: the sentinel, then each code's symbol in input order. */
  function RollupProject(procs: seq<string>, p: Pathway, mapping: map<string, string>, catMap: map<string, string>): (r: string)
    requires Named(p, mapping)
    ensures |r| > 0 && r[0] == Sentinel
    decreases |procs|
  {
    if |procs| == 0 then [Sentinel]
    else RollupProject(procs[..|procs| - 1], p, mapping, catMap) + RollupEmit(p, mapping, catMap, procs[|procs| - 1])
  }

  /** With one-character symbols each code that matches adds exactly one character. */
  lemma {:induction false} RollupProjectLength(procs: seq<string>, p: Pathway, mapping: map<string, string>, catMap: map<string, string>)
    requires Named(p, mapping) && SingleCharSymbols(mapping)
    ensures |RollupProject(procs, p, mapping, catMap)| - 1 == RollupMatchCount(p, catMap, procs)
    decreases |procs|
  {
    if |procs| > 0 {
      RollupProjectLength(procs[..|procs| - 1], p, mapping, catMap);
    }
  }

  /**
   * construct_rollup_pcd_seq as written: fails on an empty code list;
   * otherwise the fraction's denominator counts every code, blank ones
   * included, and it lies in [0, 1] when every symbol is one character.
   */
  function ConstructRollupPcdSeq(procs: seq<string>, p: Pathway, mapping: map<string, string>, catMap: map<string, string>): (r: Result<Projection, ProjectionError>)
    requires Named(p, mapping)
    ensures r.Failure? <==> |procs| == 0
    ensures r.Success? ==> |r.value.symbols| > 0 && r.value.symbols[0] == Sentinel && r.value.frac.den == |procs|
    ensures r.Success? ==> (r.value.frac.num == 0 <==> r.value.symbols == [Sentinel])
    ensures r.Success? && SingleCharSymbols(mapping) ==>
      0 <= r.value.frac.num <= r.value.frac.den && r.value.frac.num == RollupMatchCount(p, catMap, procs)
  {
    if |procs| == 0 then Failure(DivisionByZero)
    else
      var s := RollupProject(procs, p, mapping, catMap);
      assert SingleCharSymbols(mapping) ==> |s| - 1 == RollupMatchCount(p, catMap, procs) by {
        if SingleCharSymbols(mapping) {
          RollupProjectLength(procs, p, mapping, catMap);
        }
      }
      Success(Projection(s, Fraction(|s| - 1, |procs|)))
  }

  /** construct_rollup_pcd_seq with the fraction it is meant to report: the share of codes that matched. */
  function CorrectedRollupPcdSeq(procs: seq<string>, p: Pathway, mapping: map<string, string>, catMap: map<string, string>): (r: Result<Projection, ProjectionError>)
    requires Named(p, mapping)
    ensures r.Failure? <==> |procs| == 0
    ensures r.Success? ==> |r.value.symbols| > 0 && r.value.symbols[0] == Sentinel && r.value.frac.den == |procs|
    ensures r.Success? ==> 0 <= r.value.frac.num <= r.value.frac.den
    ensures r.Success? ==> (r.value.frac.num == 0 <==> NoneRollUp(p, catMap, procs))
  {
    if |procs| == 0 then Failure(DivisionByZero)
    else
      RollupMatchCountZero(p, catMap, procs);
      Success(Projection(RollupProject(procs, p, mapping, catMap), Fraction(RollupMatchCount(p, catMap, procs), |procs|)))
  }

  /** With one-character symbols the source's rollup fraction is already the intended one. */
  lemma CorrectedRollupAgreesOnShortPathways(procs: seq<string>, p: Pathway, mapping: map<string, string>, catMap: map<string, string>)
    requires Named(p, mapping) && SingleCharSymbols(mapping)
    ensures CorrectedRollupPcdSeq(procs, p, mapping, catMap) == ConstructRollupPcdSeq(procs, p, mapping, catMap)
  {
    RollupProjectLength(procs, p, mapping, catMap);
  }

  /**
   * A blank code appends nothing yet still counts in the denominator: adding
   * one keeps the sequence and raises the denominator by one.
   */
  lemma RollupBlankCounted(procs: seq<string>, b: string, p: Pathway, mapping: map<string, string>, catMap: map<string, string>)
    requires Named(p, mapping) && IsBlank(b)
    ensures var r := ConstructRollupPcdSeq(procs + [b], p, mapping, catMap);
      r.Success? && r.value.symbols == RollupProject(procs, p, mapping, catMap) && r.value.frac.den == |procs| + 1
  {
    assert (procs + [b])[..|procs|] == procs;
  }

  /** An exact match takes priority: a non-blank code that some step lists emits in rollup mode what it emits in exact mode. */
  lemma ExactTakesPriority(p: Pathway, mapping: map<string, string>, catMap: map<string, string>, code: string)
    requires Named(p, mapping)
    requires !IsBlank(code) && FirstStep(p, code).Some?
    ensures RollupEmit(p, mapping, catMap, code) == Emit(p, mapping, code)
  {
  }

  /**
   * Rollup mode reduces to exact mode when nothing rolls up: if no code is
   * blank and every code without an exact match also has no rollup step, the
   * two projections coincide.
   */
  lemma {:induction false} RollupAgreesWithExact(procs: seq<string>, p: Pathway, mapping: map<string, string>, catMap: map<string, string>)
    requires Named(p, mapping)
    requires forall i :: 0 <= i < |procs| ==> !IsBlank(procs[i])
    requires forall i :: 0 <= i < |procs| && FirstStep(p, procs[i]).None? ==> RollupStep(p, catMap, procs[i]).None?
    ensures RollupProject(procs, p, mapping, catMap) == Project(procs, p, mapping)
    decreases |procs|
  {
    if |procs| > 0 {
      var prefix := procs[..|procs| - 1];
      assert forall i :: 0 <= i < |prefix| ==> prefix[i] == procs[i];
      RollupAgreesWithExact(prefix, p, mapping, catMap);
    }
  }

  /**
   * Against the expanded hierarchy, a digit code rolls up only when its value
   * is positive and some range covers it.
   */
  lemma RollupNeedsCoveredCode(hs: seq<Entry>, p: Pathway, code: string)
    requires RollupStep(p, CategoryMap(hs), code).Some?
    ensures IsAllDigits(code)
    ensures ParseDigits(code) > 0 && exists j :: 0 <= j < |hs| && Covers(hs[j], ParseDigits(code))
  {
    DigitLookup(hs, code);
  }

  /** A single code projects to the sentinel followed by that code's symbol. */
  lemma RollupSingleCode(p: Pathway, mapping: map<string, string>, catMap: map<string, string>, c: string)
    requires Named(p, mapping)
    ensures RollupProject([c], p, mapping, catMap) == [Sentinel] + RollupEmit(p, mapping, catMap, c)
    ensures RollupMatchCount(p, catMap, [c]) == if RollupMatches(p, catMap, c) then 1 else 0
  {
    assert [c][..0] == [];
  }

  /**
   * The rollup fraction has the same defect as the exact one: a non-blank
   * code exactly matched by a step whose symbol has two or more characters
   * gives a fraction of at least 2 / 1.
   */
  lemma RollupLongSymbolFractionExceedsOne(p: Pathway, mapping: map<string, string>, catMap: map<string, string>, c: string)
    requires Named(p, mapping) && !IsBlank(c)
    requires FirstStep(p, c).Some? && |mapping[p[FirstStep(p, c).value].name]| >= 2
    ensures var r := ConstructRollupPcdSeq([c], p, mapping, catMap);
      r.Success? && r.value.frac.den == 1 && r.value.frac.num >= 2
    ensures var r := CorrectedRollupPcdSeq([c], p, mapping, catMap);
      r.Success? && r.value.frac == Fraction(1, 1)
  {
    RollupSingleCode(p, mapping, catMap, c);
  }

  /** One non-blank code exactly matched by a step with symbol "10" projects to "010", fraction 2 / 1. */
  lemma RollupSymbolTenFraction(p: Pathway, mapping: map<string, string>, catMap: map<string, string>, c: string)
    requires Named(p, mapping) && !IsBlank(c)
    requires FirstStep(p, c).Some? && mapping[p[FirstStep(p, c).value].name] == "10"
    ensures ConstructRollupPcdSeq([c], p, mapping, catMap) == Success(Projection("010", Fraction(2, 1)))
    ensures CorrectedRollupPcdSeq([c], p, mapping, catMap) == Success(Projection("010", Fraction(1, 1)))
  {
    RollupSingleCode(p, mapping, catMap, c);
    assert [Sentinel] + "10" == "010";
  }

  /** A concrete input for the finding: "x" against TenSteps, in rollup mode, projects to "010", fraction 2 / 1. */
  lemma TenStepRollupFractionExceedsOne(p: Pathway, catMap: map<string, string>)
    requires p == TenSteps()
    ensures Named(p, Encode(p).mapping)
    ensures ConstructRollupPcdSeq(["x"], p, Encode(p).mapping, catMap) == Success(Projection("010", Fraction(2, 1)))
    ensures CorrectedRollupPcdSeq(["x"], p, Encode(p).mapping, catMap) == Success(Projection("010", Fraction(1, 1)))
  {
    TenStepsLongSymbol(p);
    RollupSymbolTenFraction(p, Encode(p).mapping, catMap, "x");
  }
}
