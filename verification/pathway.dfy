/**
 * Care pathways and the pathway encoder `get_target_sequence`: steps get the
 * symbols str(1) .. str(N) in authored order, and the target sequence is the
 * sentinel '0' followed by those symbols.
 */
module Pathway {
  import opened Decimal

  /** A pathway step: its name (the dictionary key) and its accepted codes. */
  datatype Step = Step(name: string, codes: seq<string>)

  /** A care pathway: steps in authored (dictionary insertion) order. */
  type Pathway = seq<Step>

  /** Step names are dictionary keys, hence pairwise distinct. */
  predicate WellFormed(p: Pathway) {
    forall i, j :: 0 <= i < j < |p| ==> p[i].name != p[j].name
  }

  /** The sentinel meaning "no corresponding step"; it opens every symbol sequence. */
  const Sentinel: char := '0'

  /** The symbol of the step at 1-based position k: Python's `str(k)`. */
  function Symbol(k: nat): string {
    NatToString(k)
  }

  /** The encoder's two results: the target sequence and the step-name -> symbol mapping. */
  datatype Encoding = Encoding(target: string, mapping: map<string, string>)

  /** The set of step names of a pathway. */
  function Names(p: Pathway): set<string> {
    set k | 0 <= k < |p| :: p[k].name
  }

  /** Every mapping value's characters occur in the target. */
  predicate SymbolsInTarget(e: Encoding) {
    forall n, c :: n in e.mapping && c in e.mapping[n] ==> c in e.target
  }

  /**
   * get_target_sequence: the target opens with the sentinel, the mapping has
   * one key per step, and the k-th step (from 0) gets the symbol str(k + 1).
   */
  function Encode(p: Pathway): (e: Encoding)
    ensures |e.target| > 0 && e.target[0] == Sentinel
    ensures e.mapping.Keys == Names(p)
    ensures WellFormed(p) ==> forall k :: 0 <= k < |p| ==> e.mapping[p[k].name] == Symbol(k + 1)
    decreases |p|
  {
    if |p| == 0 then Encoding([Sentinel], map[])
    else
      var prev := Encode(p[..|p| - 1]);
      var s := Symbol(|p|);
      NamesSnoc(p);
      Encoding(prev.target + s, prev.mapping[p[|p| - 1].name := s])
  }

  /** The names of a non-empty pathway: those of its prefix plus the last step's. */
  lemma NamesSnoc(p: Pathway)
    requires |p| > 0
    ensures Names(p) == Names(p[..|p| - 1]) + {p[|p| - 1].name}
  {
    var q := p[..|p| - 1];
    forall n | n in Names(q) ensures n in Names(p) {
      var k :| 0 <= k < |q| && q[k].name == n;
      assert p[k].name == n;
    }
  }

  /** One step of the encoder's loop: append the last step's symbol to target and mapping. */
  lemma EncodeStep(p: Pathway)
    requires |p| > 0
    ensures Encode(p).target == Encode(p[..|p| - 1]).target + Symbol(|p|)
    ensures Encode(p).mapping == Encode(p[..|p| - 1]).mapping[p[|p| - 1].name := Symbol(|p|)]
  {
  }

  /** The target is made of digits only, and every symbol's characters occur in it. */
  lemma {:induction false} TargetAlphabet(p: Pathway)
    ensures DigitsOnly(Encode(p).target)
    ensures SymbolsInTarget(Encode(p))
    decreases |p|
  {
    if |p| > 0 {
      var q := p[..|p| - 1];
      TargetAlphabet(q);
      var e := Encode(p);
      var s := Symbol(|p|);
      EncodeStep(p);
      assert forall c :: c in s ==> c in e.target;
    }
  }

  /** With at most nine steps the target is exactly the digits '0', '1', ..., 'N'. */
  lemma {:induction false} ShortTarget(p: Pathway)
    requires |p| <= 9
    ensures |Encode(p).target| == |p| + 1
    ensures forall i :: 0 <= i < |Encode(p).target| ==> Encode(p).target[i] == DigitChar(i)
    decreases |p|
  {
    if |p| > 0 {
      var q := p[..|p| - 1];
      var t, tq := Encode(p).target, Encode(q).target;
      assert t == tq + [DigitChar(|p|)] by {
        EncodeStep(p);
        assert Symbol(|p|) == [DigitChar(|p|)];
      }
      ShortTarget(q);
      forall i | 0 <= i < |t| ensures t[i] == DigitChar(i) {
        if i < |tq| {
          assert t[i] == tq[i];
        }
      }
    }
  }

  /** Concatenation of a sequence of strings. */
  function Concat(ss: seq<string>): string
    decreases |ss|
  {
    if |ss| == 0 then "" else Concat(ss[..|ss| - 1]) + ss[|ss| - 1]
  }

  /** The symbols str(1) .. str(n), in order. */
  function SymbolRun(n: nat): (ss: seq<string>)
    ensures |ss| == n
  {
    seq(n, k requires 0 <= k < n => Symbol(k + 1))
  }

  /**
   * The target spells out the sentinel followed by str(1) .. str(N); with
   * distinct step names, str(k + 1) is the k-th step's mapped symbol
   * (SymbolRunIsMapping), so the target lists the mapping's values in step order.
   */
  lemma {:induction false} TargetSpellsSymbols(p: Pathway)
    ensures Encode(p).target == [Sentinel] + Concat(SymbolRun(|p|))
    decreases |p|
  {
    if |p| > 0 {
      var q := p[..|p| - 1];
      var ss, qs := SymbolRun(|p|), SymbolRun(|q|);
      assert Encode(q).target == [Sentinel] + Concat(qs) by {
        TargetSpellsSymbols(q);
      }
      assert Concat(ss) == Concat(qs) + Symbol(|p|) by {
        assert ss[..|q|] == qs;
      }
      assert Encode(p).target == Encode(q).target + Symbol(|p|) by {
        EncodeStep(p);
      }
      ConcatAssociative([Sentinel], Concat(qs), Symbol(|p|));
    }
  }

  /** The k-th symbol of the run is the k-th step's mapped symbol. */
  lemma SymbolRunIsMapping(p: Pathway)
    requires WellFormed(p)
    ensures forall k :: 0 <= k < |p| ==> SymbolRun(|p|)[k] == Encode(p).mapping[p[k].name]
  {
  }

  lemma ConcatAssociative(x: string, y: string, z: string)
    ensures (x + y) + z == x + (y + z)
  {
  }

  /**
   * The mapping is invertible: each step's symbol reads back as the step's
   * 1-based position, so two steps never share a symbol.
   */
  lemma SymbolDecodes(p: Pathway, k: nat)
    requires WellFormed(p) && k < |p|
    ensures DigitsOnly(Encode(p).mapping[p[k].name])
    ensures ParseDigits(Encode(p).mapping[p[k].name]) == k + 1
  {
    ParseNatToString(k + 1);
  }

  /** The tenth step's symbol is the two-character "10". */
  lemma TenthSymbol(p: Pathway)
    requires WellFormed(p) && |p| >= 10
    ensures Encode(p).mapping[p[9].name] == "10"
  {
    SymbolTen();
  }

  lemma SymbolTen()
    ensures Symbol(10) == "10"
  {
    assert NatToString(10) == NatToString(1) + [DigitChar(0)];
  }

  /** Up to nine steps every symbol is a single character. */
  lemma ShortPathwaySymbols(p: Pathway)
    requires |p| <= 9
    ensures forall n :: n in Encode(p).mapping ==> |Encode(p).mapping[n]| == 1
  {
    var e := Encode(p);
    forall n | n in e.mapping ensures |e.mapping[n]| == 1 {
      var k :| 0 <= k < |p| && p[k].name == n;
      ShortPathwaySymbol(p, k);
    }
  }

  /** The symbol a short pathway maps any of its step names to is one digit. */
  lemma {:induction false} ShortPathwaySymbol(p: Pathway, k: nat)
    requires |p| <= 9 && k < |p|
    ensures |Encode(p).mapping[p[k].name]| == 1
    decreases |p|
  {
    var q := p[..|p| - 1];
    if p[k].name != p[|p| - 1].name {
      assert k < |p| - 1 && q[k] == p[k];
      ShortPathwaySymbol(q, k);
    }
  }

  /** Example: any three steps, e.g. imaging, consult, surgery, encode as "0123". */
  lemma ThreeStepTarget(p: Pathway)
    requires |p| == 3
    ensures Encode(p).target == "0123"
  {
    ShortTarget(p);
    var t := Encode(p).target;
    assert t[0] == '0' && t[1] == '1' && t[2] == '2' && t[3] == '3';
  }
}
