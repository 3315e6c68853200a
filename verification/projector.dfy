/**
 * The exact-match sequence projector `construct_pcd_seq`: each observed code
 * becomes the symbol of the first step, in authored order, that accepts it;
 * codes no step accepts are skipped.
 */
module Projector {
  import opened Wrappers
  import opened Decimal
  import opened Pathway

  /** An exact ratio num / den; the source computes it as a float. */
  datatype Fraction = Fraction(num: int, den: nat)

  /** The projector's pair of results: the symbol sequence and the match fraction. */
  datatype Projection = Projection(symbols: string, frac: Fraction)

  /** `len(procedures) == 0` makes the fraction a ZeroDivisionError. */
  datatype ProjectionError = DivisionByZero

  /** Every step name has a symbol, so `mapping[key]` never raises KeyError. */
  predicate Named(p: Pathway, mapping: map<string, string>) {
    forall k :: 0 <= k < |p| ==> p[k].name in mapping
  }

  /** Every symbol is one character, as for pathways of at most nine steps. */
  predicate SingleCharSymbols(mapping: map<string, string>) {
    forall n :: n in mapping ==> |mapping[n]| == 1
  }

  /** No symbol is empty, as for every mapping the encoder builds. */
  predicate NonEmptySymbols(mapping: map<string, string>) {
    forall n :: n in mapping ==> |mapping[n]| > 0
  }

  /** The first step, in authored order, whose code list contains code. */
  function FirstStep(p: Pathway, code: string): (r: Option<nat>)
    ensures r.Some? ==> r.value < |p| && code in p[r.value].codes
    ensures r.Some? ==> forall j :: 0 <= j < r.value ==> code !in p[j].codes
    ensures r.None? <==> forall j :: 0 <= j < |p| ==> code !in p[j].codes
    decreases |p|
  {
    if |p| == 0 then None
    else if code in p[0].codes then Some(0)
    else
      match FirstStep(p[1..], code)
      case None => None
      case Some(k) => Some(k + 1)
  }

  /** Step k lists code and no earlier step does. */
  predicate FirstLister(p: Pathway, code: string, k: int) {
    && 0 <= k < |p|
    && code in p[k].codes
    && forall j :: 0 <= j < k ==> code !in p[j].codes
  }

  /** No step lists code. */
  predicate Unlisted(p: Pathway, code: string) {
    forall j :: 0 <= j < |p| ==> code !in p[j].codes
  }

  /** What one observed code appends to the sequence: its first step's symbol, or nothing. */
  function Emit(p: Pathway, mapping: map<string, string>, code: string): (r: string)
    requires Named(p, mapping)
    ensures forall k :: FirstLister(p, code, k) ==> r == mapping[p[k].name]
    ensures Unlisted(p, code) ==> r == ""
  {
    match FirstStep(p, code)
    case Some(k) => mapping[p[k].name]
    case None => ""
  }

  /** No observed code is accepted by any step. */
  predicate NoneMatch(p: Pathway, procs: seq<string>) {
    forall i :: 0 <= i < |procs| ==> FirstStep(p, procs[i]).None?
  }

  /** The number of observed codes that some step accepts. */
  function MatchCount(p: Pathway, procs: seq<string>): (n: nat)
    ensures n <= |procs|
    decreases |procs|
  {
    if |procs| == 0 then 0
    else
      var n := MatchCount(p, procs[..|procs| - 1]);
      if FirstStep(p, procs[|procs| - 1]).Some? then n + 1 else n
  }

  /** No match is counted exactly when no code matches. */
  lemma {:induction false} MatchCountZero(p: Pathway, procs: seq<string>)
    ensures MatchCount(p, procs) == 0 <==> NoneMatch(p, procs)
    decreases |procs|
  {
    if |procs| > 0 {
      var prefix := procs[..|procs| - 1];
      MatchCountZero(p, prefix);
      assert forall i :: 0 <= i < |prefix| ==> prefix[i] == procs[i];
    }
  }

  /** The loop of construct_pcd_seq: the sentinel, then each code's symbol in input order. */
  function Project(procs: seq<string>, p: Pathway, mapping: map<string, string>): (r: string)
    requires Named(p, mapping)
    ensures |r| > 0 && r[0] == Sentinel
    decreases |procs|
  {
    if |procs| == 0 then [Sentinel]
    else Project(procs[..|procs| - 1], p, mapping) + Emit(p, mapping, procs[|procs| - 1])
  }

  /** With one-character symbols each matched code adds exactly one character. */
  lemma {:induction false} ProjectLength(procs: seq<string>, p: Pathway, mapping: map<string, string>)
    requires Named(p, mapping) && SingleCharSymbols(mapping)
    ensures |Project(procs, p, mapping)| - 1 == MatchCount(p, procs)
    decreases |procs|
  {
    if |procs| > 0 {
      ProjectLength(procs[..|procs| - 1], p, mapping);
    }
  }

  /** With non-empty symbols the sequence stays "0" exactly when no code matches. */
  lemma {:induction false} ProjectSentinelOnly(procs: seq<string>, p: Pathway, mapping: map<string, string>)
    requires Named(p, mapping) && NonEmptySymbols(mapping)
    ensures Project(procs, p, mapping) == [Sentinel] <==> NoneMatch(p, procs)
    decreases |procs|
  {
    if |procs| > 0 {
      var prefix := procs[..|procs| - 1];
      ProjectSentinelOnly(prefix, p, mapping);
      assert forall i :: 0 <= i < |prefix| ==> prefix[i] == procs[i];
      var r := Project(procs, p, mapping);
      if r == [Sentinel] {
        assert |Project(prefix, p, mapping)| >= 1;
      }
    }
  }

  /**
   * construct_pcd_seq as written: fails on an empty code list; otherwise the
   * fraction is (len(pcd_seq) - 1) / len(procedures), which is 0 exactly when
   * the sequence is "0" and lies in [0, 1] when every symbol is one character.
   */
  function ConstructPcdSeq(procs: seq<string>, p: Pathway, mapping: map<string, string>): (r: Result<Projection, ProjectionError>)
    requires Named(p, mapping)
    ensures r.Failure? <==> |procs| == 0
    ensures r.Success? ==> |r.value.symbols| > 0 && r.value.symbols[0] == Sentinel && r.value.frac.den == |procs|
    ensures r.Success? ==> (r.value.frac.num == 0 <==> r.value.symbols == [Sentinel])
    ensures r.Success? && SingleCharSymbols(mapping) ==>
      0 <= r.value.frac.num <= r.value.frac.den && r.value.frac.num == MatchCount(p, procs)
  {
    if |procs| == 0 then Failure(DivisionByZero)
    else
      var s := Project(procs, p, mapping);
      assert SingleCharSymbols(mapping) ==> |s| - 1 == MatchCount(p, procs) by {
        if SingleCharSymbols(mapping) {
          ProjectLength(procs, p, mapping);
        }
      }
      Success(Projection(s, Fraction(|s| - 1, |procs|)))
  }

  /**
   * construct_pcd_seq with the fraction it is meant to report: the share of
   * observed codes that matched a step, whatever the symbols' lengths.
   */
  function CorrectedPcdSeq(procs: seq<string>, p: Pathway, mapping: map<string, string>): (r: Result<Projection, ProjectionError>)
    requires Named(p, mapping)
    ensures r.Failure? <==> |procs| == 0
    ensures r.Success? ==> |r.value.symbols| > 0 && r.value.symbols[0] == Sentinel && r.value.frac.den == |procs|
    ensures r.Success? ==> 0 <= r.value.frac.num <= r.value.frac.den
    ensures r.Success? ==> (r.value.frac.num == 0 <==> NoneMatch(p, procs))
  {
    if |procs| == 0 then Failure(DivisionByZero)
    else
      MatchCountZero(p, procs);
      Success(Projection(Project(procs, p, mapping), Fraction(MatchCount(p, procs), |procs|)))
  }

  /** With one-character symbols the source's fraction is already the intended one. */
  lemma CorrectedAgreesOnShortPathways(procs: seq<string>, p: Pathway, mapping: map<string, string>)
    requires Named(p, mapping) && SingleCharSymbols(mapping)
    ensures CorrectedPcdSeq(procs, p, mapping) == ConstructPcdSeq(procs, p, mapping)
  {
    ProjectLength(procs, p, mapping);
  }

  /**
   * Projection is compositional: the codes of a and then b project to a's
   * sequence followed by b's symbols, so input order is preserved.
   */
  lemma {:induction false} ProjectAppend(a: seq<string>, b: seq<string>, p: Pathway, mapping: map<string, string>)
    requires Named(p, mapping)
    ensures Project(a + b, p, mapping) == Project(a, p, mapping) + Project(b, p, mapping)[1..]
    decreases |b|
  {
    if |b| == 0 {
      assert a + b == a;
    } else {
      var b' := b[..|b| - 1];
      var e := Emit(p, mapping, b[|b| - 1]);
      var pa, pb' := Project(a, p, mapping), Project(b', p, mapping);
      assert Project(a + b, p, mapping) == Project(a + b', p, mapping) + e by {
        assert (a + b)[..|a + b| - 1] == a + b';
      }
      assert Project(a + b', p, mapping) == pa + pb'[1..] by {
        ProjectAppend(a, b', p, mapping);
      }
      assert Project(b, p, mapping) == pb' + e;
      ShiftAppend(pa, pb', e);
    }
  }

  /** Dropping the head of y commutes with appending z, when y is non-empty. */
  lemma ShiftAppend(x: string, y: string, z: string)
    requires |y| > 0
    ensures (x + y[1..]) + z == x + (y + z)[1..]
  {
    assert (y + z)[1..] == y[1..] + z;
  }

  /** A code that no step accepts contributes nothing, wherever it occurs. */
  lemma ProjectSkipsUnmatched(a: seq<string>, c: string, b: seq<string>, p: Pathway, mapping: map<string, string>)
    requires Named(p, mapping)
    requires FirstStep(p, c).None?
    ensures Project(a + [c] + b, p, mapping) == Project(a + b, p, mapping)
  {
    ProjectAppend(a + [c], b, p, mapping);
    ProjectAppend(a, b, p, mapping);
    assert (a + [c])[..|a|] == a;
  }

  /** The encoder's mapping names every step and never maps to an empty symbol. */
  lemma EncodingFitsProjector(p: Pathway)
    ensures Named(p, Encode(p).mapping)
    ensures NonEmptySymbols(Encode(p).mapping)
    ensures |p| <= 9 ==> SingleCharSymbols(Encode(p).mapping)
  {
    var e := Encode(p);
    forall k | 0 <= k < |p| ensures p[k].name in e.mapping {
      assert p[k].name in Names(p);
    }
    forall n | n in e.mapping ensures |e.mapping[n]| > 0 {
      var k :| 0 <= k < |p| && p[k].name == n;
      EncodedSymbolNonEmpty(p, k);
    }
    if |p| <= 9 {
      ShortPathwaySymbols(p);
    }
  }

  /** Every mapped symbol is some str(k), hence non-empty. */
  lemma {:induction false} EncodedSymbolNonEmpty(p: Pathway, k: nat)
    requires k < |p|
    ensures |Encode(p).mapping[p[k].name]| > 0
    decreases |p|
  {
    var q := p[..|p| - 1];
    if p[k].name != p[|p| - 1].name {
      assert k < |p| - 1 && q[k] == p[k];
      EncodedSymbolNonEmpty(q, k);
    }
  }

  /** From the tenth step on, the encoder's symbols have at least two characters. */
  lemma LateStepSymbolIsLong(p: Pathway, k: nat)
    requires WellFormed(p) && 9 <= k < |p|
    ensures |Encode(p).mapping[p[k].name]| >= 2
  {
    var n := k + 1;
    assert Symbol(n) == NatToString(n / 10) + [DigitChar(n % 10)];
  }

  /** A single code projects to the sentinel followed by that code's symbol. */
  lemma SingleCode(p: Pathway, mapping: map<string, string>, c: string)
    requires Named(p, mapping)
    ensures Project([c], p, mapping) == [Sentinel] + Emit(p, mapping, c)
    ensures MatchCount(p, [c]) == if FirstStep(p, c).Some? then 1 else 0
  {
    assert [c][..0] == [];
  }

  /**
   * The fraction counts characters, not matches: a single code whose first
   * accepting step has a symbol of two or more characters yields a fraction
   * of at least 2 / 1, where the share of matched codes is 1 / 1.
   */
  lemma LongSymbolFractionExceedsOne(p: Pathway, mapping: map<string, string>, c: string)
    requires Named(p, mapping)
    requires FirstStep(p, c).Some? && |mapping[p[FirstStep(p, c).value].name]| >= 2
    ensures var r := ConstructPcdSeq([c], p, mapping);
      r.Success? && r.value.frac.den == 1 && r.value.frac.num >= 2
    ensures var r := CorrectedPcdSeq([c], p, mapping);
      r.Success? && r.value.frac == Fraction(1, 1)
  {
    SingleCode(p, mapping, c);
  }

  /** A ten-step pathway, steps named "a" .. "j", whose last step alone accepts "x". */
  function TenSteps(): (p: Pathway)
    ensures |p| == 10
  {
    seq(10, i requires 0 <= i < 10 => Step([('a' as int + i) as char], if i == 9 then ["x"] else []))
  }

  /** TenSteps is a well-formed pathway in which "x" is first accepted by the tenth step. */
  lemma TenStepsShape()
    ensures WellFormed(TenSteps())
    ensures FirstStep(TenSteps(), "x") == Some(9)
  {
    var p := TenSteps();
    forall i, j | 0 <= i < j < |p| ensures p[i].name != p[j].name {
      assert p[i].name[0] != p[j].name[0];
    }
    assert "x" in p[9].codes;
  }

  /** One code whose first step has the symbol "10" projects to "010", fraction 2 / 1. */
  lemma SymbolTenFraction(p: Pathway, mapping: map<string, string>, c: string)
    requires Named(p, mapping)
    requires FirstStep(p, c).Some? && mapping[p[FirstStep(p, c).value].name] == "10"
    ensures ConstructPcdSeq([c], p, mapping) == Success(Projection("010", Fraction(2, 1)))
    ensures CorrectedPcdSeq([c], p, mapping) == Success(Projection("010", Fraction(1, 1)))
  {
    SingleCode(p, mapping, c);
    assert [Sentinel] + "10" == "010";
  }

  /** Against TenSteps, "x" is matched by the tenth step, whose symbol is "10". */
  lemma TenStepsLongSymbol(p: Pathway)
    requires p == TenSteps()
    ensures Named(p, Encode(p).mapping)
    ensures FirstStep(p, "x") == Some(9)
    ensures Encode(p).mapping[p[9].name] == "10"
  {
    TenStepsShape();
    EncodingFitsProjector(p);
    TenthSymbol(p);
  }

  /** A concrete input for the finding: "x" against TenSteps projects to "010", fraction 2 / 1. */
  lemma TenStepFractionExceedsOne(p: Pathway)
    requires p == TenSteps()
    ensures Named(p, Encode(p).mapping)
    ensures ConstructPcdSeq(["x"], p, Encode(p).mapping) == Success(Projection("010", Fraction(2, 1)))
    ensures CorrectedPcdSeq(["x"], p, Encode(p).mapping) == Success(Projection("010", Fraction(1, 1)))
  {
    TenStepsLongSymbol(p);
    SymbolTenFraction(p, Encode(p).mapping, "x");
  }
}
