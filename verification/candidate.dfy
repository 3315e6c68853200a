/**
 * How the components meet in the per-pathway loop of the adherence functions
 * (encode the pathway, project the observed codes, reduce, build the scoring
 * table for the alignment): the projected symbols always come from the
 * target's alphabet, so every pair the alignment looks up has a score.
 */
module Candidate {
  import opened Wrappers
  import opened Decimal
  import opened Pathway
  import opened Reducer
  import opened Scoring
  import opened Projector
  import opened Rollup

  /** A target built by the encoder is all digits, so the scoring table never fails to build. */
  lemma EncodedTargetScorable(p: Pathway)
    ensures MakeScoringDict(Encode(p).target).Some?
  {
    TargetAlphabet(p);
  }

  /** A digit that names the sentinel or one of the first n steps. */
  predicate SymbolUpTo(c: char, n: nat) {
    IsDigit(c) && DigitValue(c) <= n
  }

  /** For at most nine steps the target's characters are exactly the digits '0'..'N'. */
  lemma ShortTargetChars(p: Pathway)
    requires |p| <= 9
    ensures forall c :: c in Encode(p).target <==> SymbolUpTo(c, |p|)
  {
    ShortTarget(p);
    var t := Encode(p).target;
    forall c | SymbolUpTo(c, |p|) ensures c in t {
      assert t[DigitValue(c)] == c;
    }
  }

  /** For at most nine steps the table is keyed by exactly the pairs of digits '0'..'N'. */
  lemma ShortTargetTable(p: Pathway)
    requires |p| <= 9
    ensures MakeScoringDict(Encode(p).target).Some?
    ensures forall c1, c2 :: (c1, c2) in MakeScoringDict(Encode(p).target).value <==>
      SymbolUpTo(c1, |p|) && SymbolUpTo(c2, |p|)
  {
    EncodedTargetScorable(p);
    TableKeys(Encode(p).target);
    ShortTargetChars(p);
  }

  /** Every character of an exact projection occurs in the target. */
  lemma {:induction false} ProjectedWithinTarget(procs: seq<string>, p: Pathway)
    ensures Named(p, Encode(p).mapping)
    ensures forall c :: c in Project(procs, p, Encode(p).mapping) ==> c in Encode(p).target
    decreases |procs|
  {
    EncodingFitsProjector(p);
    TargetAlphabet(p);
    if |procs| > 0 {
      ProjectedWithinTarget(procs[..|procs| - 1], p);
      var e := Encode(p);
      var code := procs[|procs| - 1];
      match FirstStep(p, code)
      case None =>
      case Some(k) =>
        assert forall c :: c in e.mapping[p[k].name] ==> c in e.target;
    }
  }

  /** Every character of a rollup projection occurs in the target. */
  lemma {:induction false} RollupWithinTarget(procs: seq<string>, p: Pathway, catMap: map<string, string>)
    ensures Named(p, Encode(p).mapping)
    ensures forall c :: c in RollupProject(procs, p, Encode(p).mapping, catMap) ==> c in Encode(p).target
    decreases |procs|
  {
    EncodingFitsProjector(p);
    TargetAlphabet(p);
    if |procs| > 0 {
      RollupWithinTarget(procs[..|procs| - 1], p, catMap);
      var e := Encode(p);
      var sym := RollupEmit(p, e.mapping, catMap, procs[|procs| - 1]);
      assert sym == "" || exists n :: n in e.mapping && sym == e.mapping[n];
    }
  }

  /**
   * The alignment of the reduced projection against the target only ever
   * looks up pairs the scoring table holds, in either order.
   */
  lemma AlignmentLookupsDefined(procs: seq<string>, p: Pathway)
    ensures MakeScoringDict(Encode(p).target).Some?
    ensures Named(p, Encode(p).mapping)
    ensures var t := Encode(p).target;
      var r := Reduce(Project(procs, p, Encode(p).mapping));
      var d := MakeScoringDict(t).value;
      forall i, j :: 0 <= i < |t| && 0 <= j < |r| ==> (t[i], r[j]) in d && (r[j], t[i]) in d
  {
    ProjectedWithinTarget(procs, p);
    EncodedTargetScorable(p);
    var t := Encode(p).target;
    var r := Reduce(Project(procs, p, Encode(p).mapping));
    var d := MakeScoringDict(t).value;
    forall i, j | 0 <= i < |t| && 0 <= j < |r| ensures (t[i], r[j]) in d && (r[j], t[i]) in d {
      assert r[j] in t;
      var j' :| 0 <= j' < |t| && t[j'] == r[j];
      assert (t[i], r[j]) == (t[i], t[j']);
      assert (r[j], t[i]) == (t[j'], t[i]);
    }
  }
}
