/**
 * The substitution table `make_scoring_dict` that the sequence alignment is
 * scored with: one entry for every ordered pair of characters of the target.
 */
module Scoring {
  import opened Wrappers
  import opened Decimal

  type Table = map<(char, char), int>

  function Abs(x: int): nat {
    if x < 0 then -x else x
  }

  /**
   * The score of one pair, tested in the source's order: equal characters,
   * then the sentinel, then `abs(int(c1) - int(c2)) == 1`.  None is the
   * ValueError `int()` raises on a character that is not a digit.
   */
  function PairScore(c1: char, c2: char): (r: Option<int>)
    ensures r.None? <==> Unscorable(c1, c2)
    ensures c1 == c2 ==> r.Some? && r.value >= 10
    ensures r.Some? && c1 != c2 ==> r.value <= 5
    ensures r.Some? && (c1 == '0' || c2 == '0') ==> r.value == 1000 || r.value == -1000
  {
    if c1 == c2 then
      if c1 != '0' && c2 != '0' then Some(10) else Some(1000)
    else if c1 == '0' || c2 == '0' then Some(-1000)
    else if !IsDigit(c1) || !IsDigit(c2) then None
    else if Abs(DigitValue(c1) - DigitValue(c2)) == 1 then Some(5)
    else Some(0)
  }

  /** Two distinct non-sentinel characters at least one of which `int()` rejects. */
  predicate Unscorable(c1: char, c2: char) {
    c1 != c2 && c1 != '0' && c2 != '0' && !(IsDigit(c1) && IsDigit(c2))
  }

  /** Every entry of d holds the score its pair gets. */
  ghost predicate Consistent(d: Table) {
    forall k :: k in d ==> PairScore(k.0, k.1) == Some(d[k])
  }

  /** The scoring rules of the alignment, one clause per rule. */
  ghost predicate FollowsRules(d: Table) {
    && (forall k :: k in d && k.0 == k.1 && k.0 == '0' ==> d[k] == 1000)
    && (forall k :: k in d && k.0 == k.1 && k.0 != '0' ==> d[k] == 10)
    && (forall k :: k in d && k.0 != k.1 && (k.0 == '0' || k.1 == '0') ==> d[k] == -1000)
    && (forall k :: k in d && k.0 != k.1 && k.0 != '0' && k.1 != '0' ==>
          IsDigit(k.0) && IsDigit(k.1) &&
          d[k] == if Abs(DigitValue(k.0) - DigitValue(k.1)) == 1 then 5 else 0)
  }

  /** Every ordered pair of characters drawn from s and t. */
  function Pairs(s: string, t: string): set<(char, char)> {
    set i, j | 0 <= i < |s| && 0 <= j < |t| :: (s[i], t[j])
  }

  /** The pairs of one row split into its first pair and the rest. */
  lemma PairsRowSplit(c1: char, cs: string)
    requires |cs| > 0
    ensures Pairs([c1], cs) == {(c1, cs[0])} + Pairs([c1], cs[1..])
  {
    forall k | k in Pairs([c1], cs) ensures k in {(c1, cs[0])} + Pairs([c1], cs[1..]) {
      var i, j :| 0 <= i < 1 && 0 <= j < |cs| && k == ([c1][i], cs[j]);
      if j > 0 {
        assert k == ([c1][0], cs[1..][j - 1]);
      }
    }
    forall k | k in Pairs([c1], cs[1..]) ensures k in Pairs([c1], cs) {
      var i, j :| 0 <= i < 1 && 0 <= j < |cs| - 1 && k == ([c1][i], cs[1..][j]);
      assert k == ([c1][0], cs[j + 1]);
    }
    assert (c1, cs[0]) == ([c1][0], cs[0]);
  }

  /** The pairs of several rows split into the first row's and the rest's. */
  lemma PairsRowsSplit(rows: string, target: string)
    requires |rows| > 0
    ensures Pairs(rows, target) == Pairs([rows[0]], target) + Pairs(rows[1..], target)
  {
    forall k | k in Pairs(rows, target) ensures k in Pairs([rows[0]], target) + Pairs(rows[1..], target) {
      var i, j :| 0 <= i < |rows| && 0 <= j < |target| && k == (rows[i], target[j]);
      if i == 0 {
        assert k == ([rows[0]][0], target[j]);
      } else {
        assert k == (rows[1..][i - 1], target[j]);
      }
    }
    forall k | k in Pairs([rows[0]], target) ensures k in Pairs(rows, target) {
      var i, j :| 0 <= i < 1 && 0 <= j < |target| && k == ([rows[0]][i], target[j]);
      assert k == (rows[0], target[j]);
    }
    forall k | k in Pairs(rows[1..], target) ensures k in Pairs(rows, target) {
      var i, j :| 0 <= i < |rows| - 1 && 0 <= j < |target| && k == (rows[1..][i], target[j]);
      assert k == (rows[i + 1], target[j]);
    }
  }

  /** A failing pair lies in the first row or in the rest. */
  lemma FailingPairSplit(rows: string, target: string)
    requires |rows| > 0
    ensures (exists i, j :: 0 <= i < |rows| && 0 <= j < |target| && PairScore(rows[i], target[j]).None?) <==>
      ((exists j :: 0 <= j < |target| && PairScore(rows[0], target[j]).None?) ||
       (exists i, j :: 0 <= i < |rows| - 1 && 0 <= j < |target| && PairScore(rows[1..][i], target[j]).None?))
  {
    if i, j :| 0 <= i < |rows| && 0 <= j < |target| && PairScore(rows[i], target[j]).None? {
      if i > 0 {
        assert rows[1..][i - 1] == rows[i];
      }
    }
  }

  /** The inner loop: score (c1, c2) for every c2 of cs, stopping at the first error. */
  function ScoreRow(c1: char, cs: string, d: Table): (r: Option<Table>)
    ensures r.None? <==> exists j :: 0 <= j < |cs| && PairScore(c1, cs[j]).None?
    ensures r.Some? ==> r.value.Keys == d.Keys + Pairs([c1], cs)
    ensures r.Some? && Consistent(d) ==> Consistent(r.value)
    decreases |cs|
  {
    if |cs| == 0 then
      assert Pairs([c1], cs) == {};
      Some(d)
    else
      match PairScore(c1, cs[0])
      case None => None
      case Some(v) =>
        var r := ScoreRow(c1, cs[1..], d[(c1, cs[0]) := v]);
        PairsRowSplit(c1, cs);
        assert (exists j :: 0 <= j < |cs| && PairScore(c1, cs[j]).None?) <==>
               (exists j :: 0 <= j < |cs| - 1 && PairScore(c1, cs[1..][j]).None?) by {
          if j :| 0 <= j < |cs| && PairScore(c1, cs[j]).None? {
            assert j > 0 && cs[1..][j - 1] == cs[j];
          }
        }
        r
  }

  /** The outer loop: one row per character of rows, against every character of target. */
  function ScoreRows(rows: string, target: string, d: Table): (r: Option<Table>)
    ensures r.None? <==> exists i, j :: 0 <= i < |rows| && 0 <= j < |target| && PairScore(rows[i], target[j]).None?
    ensures r.Some? ==> r.value.Keys == d.Keys + Pairs(rows, target)
    ensures r.Some? && Consistent(d) ==> Consistent(r.value)
    decreases |rows|
  {
    if |rows| == 0 then
      assert Pairs(rows, target) == {};
      Some(d)
    else
      match ScoreRow(rows[0], target, d)
      case None => None
      case Some(d') =>
        var r := ScoreRows(rows[1..], target, d');
        PairsRowsSplit(rows, target);
        FailingPairSplit(rows, target);
        r
  }

  /**
   * make_scoring_dict: fails exactly when two distinct non-sentinel characters
   * of the target are not both digits; otherwise its keys are every ordered
   * pair of target characters and its values follow the scoring rules.
   */
  function MakeScoringDict(target: string): (r: Option<Table>)
    ensures r.None? <==> exists i, j :: 0 <= i < |target| && 0 <= j < |target| && Unscorable(target[i], target[j])
    ensures r.Some? ==> r.value.Keys == Pairs(target, target)
    ensures r.Some? ==> FollowsRules(r.value)
  {
    var r := ScoreRows(target, target, map[]);
    assert forall c1, c2 :: PairScore(c1, c2).None? <==> Unscorable(c1, c2);
    r
  }

  /** The table holds a pair exactly when both of its characters occur in the target. */
  lemma TableKeys(target: string)
    requires MakeScoringDict(target).Some?
    ensures var d := MakeScoringDict(target).value;
      forall c1, c2 :: (c1, c2) in d <==> c1 in target && c2 in target
  {
    var d := MakeScoringDict(target).value;
    forall c1, c2 | c1 in target && c2 in target ensures (c1, c2) in d {
      var i :| 0 <= i < |target| && target[i] == c1;
      var j :| 0 <= j < |target| && target[j] == c2;
      assert (c1, c2) == (target[i], target[j]);
    }
  }

  /** The table is symmetric: (a, b) and (b, a) are both keys and score alike. */
  lemma ScoringSymmetric(target: string)
    requires MakeScoringDict(target).Some?
    ensures var d := MakeScoringDict(target).value;
      forall k :: k in d ==> (k.1, k.0) in d && d[(k.1, k.0)] == d[k]
  {
    var d := MakeScoringDict(target).value;
    forall k | k in d ensures (k.1, k.0) in d && d[(k.1, k.0)] == d[k] {
      var i, j :| 0 <= i < |target| && 0 <= j < |target| && k == (target[i], target[j]);
      assert (k.1, k.0) == (target[j], target[i]);
      RulesScore(d, k);
      RulesScore(d, (k.1, k.0));
      PairScoreSymmetric(k.0, k.1);
    }
  }

  /** A table that follows the rules holds, for each of its pairs, the pair's score. */
  lemma RulesScore(d: Table, k: (char, char))
    requires FollowsRules(d) && k in d
    ensures PairScore(k.0, k.1) == Some(d[k])
  {
  }

  /** A pair scores the same in either order. */
  lemma PairScoreSymmetric(c1: char, c2: char)
    ensures PairScore(c1, c2) == PairScore(c2, c1)
  {
  }

  /** A character scores at least as well against itself as against anything else. */
  lemma ScoringDiagonalBest(target: string)
    requires MakeScoringDict(target).Some?
    ensures var d := MakeScoringDict(target).value;
      forall k :: k in d ==> (k.0, k.0) in d && d[k] <= d[(k.0, k.0)]
  {
    var d := MakeScoringDict(target).value;
    forall k | k in d ensures (k.0, k.0) in d && d[k] <= d[(k.0, k.0)] {
      var i, j :| 0 <= i < |target| && 0 <= j < |target| && k == (target[i], target[j]);
      assert (k.0, k.0) == (target[i], target[i]);
    }
  }
}
