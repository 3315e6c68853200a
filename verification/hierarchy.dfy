/**
 * The hierarchy index: inclusive integer code ranges, each naming a CPT minor
 * category, and the two ways adherence.py consults them -- the expanded
 * `str(code) -> category` dictionary of `get_category_map` and the linear scan
 * of `code_to_category`.
 */
module Hierarchy {
  import opened Wrappers
  import opened Decimal

  /** One row of the hierarchy table: Start Code, End Code, CPT Minor Category. */
  datatype Entry = Entry(start: int, end: int, category: string)

  predicate Covers(h: Entry, code: int) {
    h.start <= code <= h.end
  }

  /** Entry j covers code and no later entry does: the entry whose write survives. */
  predicate LastCovering(hs: seq<Entry>, code: int, j: int) {
    && 0 <= j < |hs|
    && Covers(hs[j], code)
    && forall j' :: j < j' < |hs| ==> !Covers(hs[j'], code)
  }

  /** Entry j covers code and no earlier entry does: the entry a forward scan returns. */
  predicate FirstCovering(hs: seq<Entry>, code: int, j: int) {
    && 0 <= j < |hs|
    && Covers(hs[j], code)
    && forall j' :: 0 <= j' < j ==> !Covers(hs[j'], code)
  }

  /** No code is covered by two different entries. */
  ghost predicate Disjoint(hs: seq<Entry>) {
    forall j1, j2, code :: 0 <= j1 < j2 < |hs| ==> !(Covers(hs[j1], code) && Covers(hs[j2], code))
  }

  /** The keys `str(i)` for every i in the inclusive range lo..hi. */
  function RangeKeys(lo: int, hi: int): set<string> {
    set i | lo <= i <= hi :: IntToString(i)
  }

  /** A non-empty range's keys: its first key and the rest's. */
  lemma RangeKeysSplit(lo: int, hi: int)
    requires lo <= hi
    ensures RangeKeys(lo, hi) == {IntToString(lo)} + RangeKeys(lo + 1, hi)
  {
  }

  /** The inner loop of get_category_map: `for i in range(lo, hi + 1): m[str(i)] = cat`. */
  function ExpandRange(m: map<string, string>, lo: int, hi: int, cat: string): (r: map<string, string>)
    ensures r.Keys == m.Keys + RangeKeys(lo, hi)
    ensures forall i :: lo <= i <= hi ==> r[IntToString(i)] == cat
    ensures forall k :: k in m && k !in RangeKeys(lo, hi) ==> r[k] == m[k]
    decreases hi - lo
  {
    if lo > hi then
      assert RangeKeys(lo, hi) == {};
      m
    else
      var key := IntToString(lo);
      var m' := m[key := cat];
      var r := ExpandRange(m', lo + 1, hi, cat);
      RangeKeysSplit(lo, hi);
      RangeKeysMember(lo + 1, hi, lo);
      assert r[key] == cat;
      assert forall k :: k in m && k !in RangeKeys(lo, hi) ==> k in m' && k !in RangeKeys(lo + 1, hi) && m'[k] == m[k];
      r
  }

  /** A key `str(i)` lies in the expanded range exactly when i does. */
  lemma RangeKeysMember(lo: int, hi: int, i: int)
    ensures IntToString(i) in RangeKeys(lo, hi) <==> lo <= i <= hi
  {
    if IntToString(i) in RangeKeys(lo, hi) {
      var i' :| lo <= i' <= hi && IntToString(i') == IntToString(i);
      IntToStringInjective(i, i');
    }
  }

  /**
   * get_category_map: expand every entry's range, in table order, into
   * `str(code) -> category`.
   */
  function CategoryMap(hs: seq<Entry>): (r: map<string, string>)
    ensures forall k :: k in r ==> IsNumeral(k)
    decreases |hs|
  {
    if |hs| == 0 then map[]
    else
      var h := hs[|hs| - 1];
      var m := CategoryMap(hs[..|hs| - 1]);
      var r := ExpandRange(m, h.start, h.end, h.category);
      assert forall k :: k in RangeKeys(h.start, h.end) ==> IsNumeral(k);
      r
  }

  /**
   * The dictionary holds `str(code)` exactly when some entry covers code, and
   * then maps it to the category of the LAST covering entry: later entries
   * overwrite earlier ones, and an entry with start > end adds nothing.
   */
  lemma {:induction false} CategoryMapLastWins(hs: seq<Entry>, code: int)
    ensures IntToString(code) in CategoryMap(hs) <==> exists j :: 0 <= j < |hs| && Covers(hs[j], code)
    ensures IntToString(code) in CategoryMap(hs) ==>
      exists j :: LastCovering(hs, code, j) && CategoryMap(hs)[IntToString(code)] == hs[j].category
    decreases |hs|
  {
    if |hs| > 0 {
      var h := hs[|hs| - 1];
      var prefix := hs[..|hs| - 1];
      var key := IntToString(code);
      var m, mp := CategoryMap(hs), CategoryMap(prefix);
      assert m == ExpandRange(mp, h.start, h.end, h.category);
      CategoryMapLastWins(prefix, code);
      ExpandRangeLookup(mp, h.start, h.end, h.category, code);
      if Covers(h, code) {
        assert key in m && m[key] == h.category;
        assert LastCovering(hs, code, |hs| - 1);
      } else if key in mp {
        var j :| LastCovering(prefix, code, j) && mp[key] == prefix[j].category;
        assert hs[j] == prefix[j];
        assert key in m && m[key] == hs[j].category;
        assert LastCovering(hs, code, j);
      } else {
        assert key !in m;
        forall j | 0 <= j < |hs| ensures !Covers(hs[j], code) {
          if j < |prefix| {
            assert hs[j] == prefix[j];
          }
        }
      }
    }
  }

  /**
   * Every key of the dictionary is `str(i)` for some code i that an entry
   * covers: the loop writes no other key.
   */
  lemma {:induction false} CategoryMapKeys(hs: seq<Entry>)
    ensures forall k :: k in CategoryMap(hs) ==>
      exists i :: k == IntToString(i) && exists j :: 0 <= j < |hs| && Covers(hs[j], i)
    decreases |hs|
  {
    if |hs| > 0 {
      var h := hs[|hs| - 1];
      var prefix := hs[..|hs| - 1];
      var mp := CategoryMap(prefix);
      assert CategoryMap(hs) == ExpandRange(mp, h.start, h.end, h.category);
      CategoryMapKeys(prefix);
      forall k | k in CategoryMap(hs)
        ensures exists i :: k == IntToString(i) && exists j :: 0 <= j < |hs| && Covers(hs[j], i)
      {
        if k in mp {
          var i :| k == IntToString(i) && exists j :: 0 <= j < |prefix| && Covers(prefix[j], i);
          var j :| 0 <= j < |prefix| && Covers(prefix[j], i);
          assert hs[j] == prefix[j];
        } else {
          assert k in RangeKeys(h.start, h.end);
          var i :| h.start <= i <= h.end && k == IntToString(i);
          assert Covers(hs[|hs| - 1], i);
        }
      }
    }
  }

  /** What ExpandRange does to the key of one code. */
  lemma ExpandRangeLookup(m: map<string, string>, lo: int, hi: int, cat: string, code: int)
    ensures var r := ExpandRange(m, lo, hi, cat);
      IntToString(code) in r <==> IntToString(code) in m || lo <= code <= hi
    ensures lo <= code <= hi ==> ExpandRange(m, lo, hi, cat)[IntToString(code)] == cat
    ensures IntToString(code) in m && !(lo <= code <= hi) ==>
      ExpandRange(m, lo, hi, cat)[IntToString(code)] == m[IntToString(code)]
  {
    RangeKeysMember(lo, hi, code);
  }

  /** code_to_category: the first entry whose range covers the code, else "unknown". */
  function CodeToCategory(code: int, hs: seq<Entry>): (r: string)
    ensures (forall j :: 0 <= j < |hs| ==> !Covers(hs[j], code)) ==> r == "unknown"
    ensures forall j :: FirstCovering(hs, code, j) ==> r == hs[j].category
    decreases |hs|
  {
    if |hs| == 0 then "unknown"
    else if Covers(hs[0], code) then hs[0].category
    else
      var r := CodeToCategory(code, hs[1..]);
      assert forall j :: FirstCovering(hs, code, j) ==> FirstCovering(hs[1..], code, j - 1);
      r
  }

  /**
   * With non-overlapping ranges the dictionary and the linear scan agree on
   * every covered code, and the dictionary has no key for an uncovered one.
   */
  lemma {:induction false} LookupsAgree(hs: seq<Entry>, code: int)
    requires Disjoint(hs)
    ensures IntToString(code) in CategoryMap(hs) ==> CategoryMap(hs)[IntToString(code)] == CodeToCategory(code, hs)
    ensures IntToString(code) !in CategoryMap(hs) ==> CodeToCategory(code, hs) == "unknown"
    ensures (forall j :: 0 <= j < |hs| ==> hs[j].category != "unknown") ==>
      (CodeToCategory(code, hs) == "unknown" <==> IntToString(code) !in CategoryMap(hs))
  {
    var m := CategoryMap(hs);
    CategoryMapLastWins(hs, code);
    if IntToString(code) in m {
      var j :| LastCovering(hs, code, j) && m[IntToString(code)] == hs[j].category;
      assert FirstCovering(hs, code, j);
    }
  }

  /**
   * The rollup lookup `cat_map[code.lstrip('0')]`, with a KeyError as None.
   * An empty stripped key never hits, because no `str(i)` is empty.
   */
  function LookupCode(catMap: map<string, string>, code: string): (r: Option<string>)
    ensures r.Some? ==> r.value in catMap.Values
    ensures code in catMap && (|code| == 0 || code[0] != '0') ==> r == Some(catMap[code])
  {
    var key := LStripZeros(code);
    if key in catMap then Some(catMap[key]) else None
  }

  /**
   * Looking up a digit code in the expanded dictionary finds the category of
   * the last entry covering the code's value, and nothing when the value is 0
   * or no entry covers it.
   */
  lemma DigitLookup(hs: seq<Entry>, code: string)
    requires IsAllDigits(code)
    ensures var v := ParseDigits(code);
      LookupCode(CategoryMap(hs), code).Some? <==> v > 0 && exists j :: 0 <= j < |hs| && Covers(hs[j], v)
    ensures var v := ParseDigits(code);
      LookupCode(CategoryMap(hs), code).Some? ==>
        exists j :: LastCovering(hs, v, j) && LookupCode(CategoryMap(hs), code).value == hs[j].category
  {
    StrippedDigits(code);
    var v := ParseDigits(code);
    CategoryMapLastWins(hs, v);
    if v > 0 {
      assert LStripZeros(code) == IntToString(v);
    } else {
      assert "" !in CategoryMap(hs);
    }
  }
}
