# Pathway-adherence kernel, string level

A Dafny model of the pure, string-level core of `adherence.py`. This core
scores how closely a patient's observed procedure codes follow a canonical
care pathway. The model covers:

- the hierarchy index: `get_category_map` and `code_to_category`;
- the pathway encoder `get_target_sequence`;
- the sequence reducer `get_reduced_str`;
- the substitution table `make_scoring_dict`;
- the exact projector `construct_pcd_seq`;
- the rollup projector `construct_rollup_pcd_seq`.

Each Python loop is a recursive function. The loops that accumulate a
result (the reducer, the projectors, the dictionary build) recurse on the
prefix, so "the loop after one more iteration" is one unfolding. The
other loops (`code_to_category`, the step searches, the scoring rows, the
range expansion) recurse from the front, so an early `return`, `break` or
error simply ends the recursion. Python's
exceptions become error values:

- the `ZeroDivisionError` of an empty code list is `Failure(DivisionByZero)`;
- the `ValueError` of `int()` on a non-digit is `None`;
- the swallowed `KeyError` of a category lookup is `None`.

The fractions the source computes as floats are exact pairs
`Fraction(num, den)`.

Files, one module each:

| file | module | models |
|---|---|---|
| `wrappers.dfy` | `Wrappers` | `Option` and `Result` |
| `decimal.dfy` | `Decimal` | Python's `str(int)`, `isdigit`, `int` on digit strings, `lstrip('0')` |
| `hierarchy.dfy` | `Hierarchy` | `get_category_map`, `code_to_category`, the rollup's `cat_map[...lstrip('0')]` lookup |
| `pathway.dfy` | `Pathway` | `get_target_sequence` |
| `reducer.dfy` | `Reducer` | `get_reduced_str` |
| `scoring.dfy` | `Scoring` | `make_scoring_dict` |
| `projector.dfy` | `Projector` | `construct_pcd_seq`, and the corrected fraction |
| `rollup.dfy` | `Rollup` | `construct_rollup_pcd_seq`, and the corrected fraction |
| `candidate.dfy` | `Candidate` | how the pieces meet in the per-pathway loop of the adherence functions |

A care pathway is a `seq<Step>`, where a `Step` holds a name and its
accepted codes. The order of the sequence is the dictionary's insertion
order. Step names are dictionary keys, so `Pathway.WellFormed` asks for
distinct names where a property needs it. The category map is a
`map<string, string>` keyed by `str(i)`, exactly as the source builds it.

Symbols are modelled faithfully as `str(k)`: from the tenth step on they
are two or more characters long. Properties that only hold for
one-character symbols are stated for pathways of at most nine steps, or
under `Projector.SingleCharSymbols`.

Two behaviours of the code that the model keeps as they are:

- The target has length N + 1 only for N <= 9 (`Pathway.ShortTarget`).
  From the tenth step on, `str(k + 1)` has two or more characters.
- An empty code list raises `ZeroDivisionError`. This is modelled as
  `Failure(DivisionByZero)`.

## Model

| member | source | states |
|---|---|---|
| Decimal.NatToString | adherence.py:84 | `str(n)` is a non-empty run of ASCII digits; it starts with '0' exactly when n is 0 |
| Decimal.ParseNatToString | adherence.py:84 | reading `str(n)` back as a decimal gives n, so symbols decode to step positions |
| Decimal.IntToString | adherence.py:51 | `str(i)` is a non-empty numeral: it starts with '-' exactly for negative i, the rest is digits, and it starts with '0' only for 0; see IntToStringInjective for distinct keys |
| Decimal.IntToStringInjective | adherence.py:51 | distinct integers give distinct `str(i)` keys, so two range codes never share a dictionary key |
| Decimal.LStripZeros | adherence.py:156 | `lstrip('0')` returns a suffix of the input; everything it drops is '0'; the result does not start with '0' |
| Decimal.StrippedDigits | adherence.py:156 | a digit code strips to "" exactly when its value is 0, and otherwise to `str(value)` |
| Hierarchy.ExpandRange | adherence.py:50-51 | the inner loop adds exactly the keys `str(i)` for start <= i <= end; each maps to the category; every other key keeps its value |
| Hierarchy.CategoryMap | adherence.py:44-52 | every key is a non-empty numeral; CategoryMapKeys and CategoryMapLastWins state which keys occur and what they hold |
| Hierarchy.CategoryMapKeys | adherence.py:49-51 | every key is `str(i)` for some code i that some entry covers: the loop writes no other key |
| Hierarchy.CategoryMapLastWins | adherence.py:44-52 | `str(code)` is a key exactly when some entry covers code; its value is the category of the last covering entry, since later entries overwrite earlier ones; an entry with start > end adds nothing |
| Hierarchy.CodeToCategory | adherence.py:115-122 | returns "unknown" when no entry covers the code, and otherwise the category of the first covering entry |
| Hierarchy.LookupsAgree | adherence.py:115-122 | for pairwise-disjoint ranges, the linear scan agrees with the expanded dictionary on every covered code and returns "unknown" for every code the dictionary lacks; when no entry's category is itself "unknown", it returns "unknown" exactly for those codes |
| Hierarchy.LookupCode | adherence.py:156 | a hit returns one of the dictionary's categories, and a key without leading zeros is looked up as it is; see DigitLookup for digit codes |
| Hierarchy.DigitLookup | adherence.py:156 | looking up a digit code after `lstrip('0')` hits exactly when its value is positive and covered; a hit finds the last covering entry's category |
| Pathway.Encode | adherence.py:76-87 | the target opens with '0'; the mapping's keys are exactly the step names; with distinct names, the k-th step (from 0) maps to `str(k + 1)` |
| Pathway.TargetSpellsSymbols | adherence.py:82-85 | the target is '0' followed by the concatenation of `str(1)` .. `str(N)` in step order |
| Pathway.SymbolRunIsMapping | adherence.py:84-85 | the k-th symbol the target spells is the k-th step's mapped symbol |
| Pathway.TargetAlphabet | adherence.py:82-85 | the target holds digits only, and every character of every mapped symbol occurs in the target |
| Pathway.ShortTarget | adherence.py:82-85 | with at most nine steps, the target has length N + 1 and its characters are exactly '0', '1', ..., 'N' in order |
| Pathway.SymbolDecodes | adherence.py:84 | each step's symbol reads back as its 1-based position, so no two steps share a symbol |
| Pathway.ShortPathwaySymbols | adherence.py:84 | with at most nine steps, every mapped symbol is one character |
| Pathway.TenthSymbol | adherence.py:84 | with distinct names, the tenth step's symbol is the two-character "10" |
| Pathway.ThreeStepTarget | adherence.py:82-85 | any three-step pathway (e.g. Imaging, Consult, Surgery) encodes as "0123" |
| Reducer.Reduce | adherence.py:90-98 | the result has no repeated characters and holds exactly the input's characters |
| Reducer.ReduceFirstOccurrenceOrder | adherence.py:95-97 | the result lists characters in the order of their first occurrence in the input |
| Reducer.ReduceIsSubsequence | adherence.py:95-97 | the result is obtained from the input by deleting characters |
| Reducer.ReduceOfDistinct | adherence.py:95-97 | a string without repeats is left unchanged |
| Reducer.ReduceIdempotent | adherence.py:90-98 | reducing twice is the same as reducing once |
| Reducer.ReduceUnique | adherence.py:90-98 | any repeat-free string that has the input's characters in first-occurrence order is equal to the reduced string |
| Scoring.PairScore | adherence.py:62-72 | a pair has no score exactly when `int()` would reject it; a character scores at least 10 against itself, two distinct characters at most 5, and a pair with the sentinel '0' scores +1000 or -1000; see PairScoreSymmetric |
| Scoring.PairScoreSymmetric | adherence.py:62-72 | a pair scores the same in either order |
| Scoring.ScoreRow | adherence.py:61-72 | the inner loop fails exactly when `int()` rejects some pair of the row; otherwise it adds exactly that row's pairs and keeps every entry's score correct |
| Scoring.ScoreRows | adherence.py:60-72 | the outer loop fails exactly when some pair is unscorable; otherwise it adds every pair of rows x target with correct scores |
| Scoring.MakeScoringDict | adherence.py:55-73 | fails exactly when two distinct characters, neither '0', are not both digits; otherwise the keys are all ordered pairs of target characters, and the values follow the rules in order: '0'/'0' +1000, other equal +10, one '0' -1000, digits one apart +5, else 0 |
| Scoring.TableKeys | adherence.py:60-61 | (c1, c2) is a key exactly when both characters occur in the target |
| Scoring.ScoringSymmetric | adherence.py:62-72 | the table is symmetric: (b, a) is a key whenever (a, b) is, with the same score |
| Scoring.ScoringDiagonalBest | adherence.py:62-72 | a character scores at least as well against itself as against any other character |
| Projector.FirstStep | adherence.py:107-110 | returns the first step, in authored order, whose code list contains the code, and None exactly when no step lists it |
| Projector.Emit | adherence.py:107-110 | a code appends the symbol of the first step, in authored order, whose list contains it, and nothing when no step lists it |
| Projector.Project | adherence.py:105-110 | the projected sequence always opens with the sentinel '0' |
| Projector.ProjectLength | adherence.py:105-110 | with one-character symbols, the sequence grows by exactly one per matched code |
| Projector.ProjectSentinelOnly | adherence.py:105-110 | with non-empty symbols, the sequence is "0" exactly when no code matches a step |
| Projector.ProjectAppend | adherence.py:106-110 | projection preserves input order: projecting a ++ b gives a's sequence followed by b's symbols |
| Projector.ProjectSkipsUnmatched | adherence.py:107-110 | a code that no step lists contributes nothing, wherever it occurs |
| Projector.EncodingFitsProjector | adherence.py:109 | the encoder's mapping names every step, so `mapping[key]` never raises; its symbols are non-empty, and one character each for at most nine steps |
| Projector.ConstructPcdSeq | adherence.py:101-112 | fails exactly on an empty code list; otherwise the sequence opens with '0' and the denominator is the number of codes; the numerator is 0 exactly when the sequence is "0"; with one-character symbols, the fraction is matched/total and lies in [0, 1] |
| Projector.CorrectedPcdSeq | adherence.py:112 | the intended fraction: matched codes / codes, always in [0, 1], and 0 exactly when nothing matches |
| Projector.CorrectedAgreesOnShortPathways | adherence.py:112 | with one-character symbols, the source's fraction equals the intended one |
| Projector.LateStepSymbolIsLong | adherence.py:84 | from the tenth step on, a step's symbol has at least two characters |
| Projector.LongSymbolFractionExceedsOne | adherence.py:112 | one code whose step has a symbol of two or more characters gives a source fraction of at least 2/1, where the intended fraction is 1/1 |
| Projector.SymbolTenFraction | adherence.py:112 | one code whose first step has the symbol "10" projects to "010" with fraction 2/1; the intended fraction is 1/1 |
| Projector.TenStepFractionExceedsOne | adherence.py:112 | the concrete input: code "x", listed only by the tenth of ten steps, projects to "010" with fraction 2/1, where the intended fraction is 1/1 |
| Rollup.HasCategory | adherence.py:160-169 | a step's code list holds a digit code of the given category exactly when some code's lookup gives that category |
| Rollup.CategoryStep | adherence.py:159-171 | returns the first step, in authored order, holding a digit code of the category, and None exactly when no step does |
| Rollup.CodeCategory | adherence.py:153-156 | a code that is not all digits has no category; a digit key without leading zeros finds its dictionary entry; see DigitLookup and RollupNeedsCoveredCode |
| Rollup.RollupStep | adherence.py:153-171 | a code rolls up only when it has a category, and then to the first step, in authored order, holding a digit code of that category; with a category and no such step it rolls up nowhere |
| Rollup.RollupEmit | adherence.py:142-171 | "None" and "" emit nothing; an exact match emits its step's symbol; otherwise a digit code with a category emits the symbol of the category's first step; non-digit codes, lookup misses and category misses emit nothing |
| Rollup.RollupProject | adherence.py:140-171 | the rollup sequence always opens with the sentinel '0' |
| Rollup.RollupProjectLength | adherence.py:140-171 | with one-character symbols, the sequence grows by exactly one per code that matches exactly or rolls up |
| Rollup.ConstructRollupPcdSeq | adherence.py:136-172 | fails exactly on an empty code list; the denominator counts every code, blanks included; the numerator is 0 exactly when the sequence is "0"; with one-character symbols, the fraction is matched/total in [0, 1] |
| Rollup.CorrectedRollupPcdSeq | adherence.py:172 | the intended rollup fraction: codes that produced a symbol / codes, always in [0, 1], and 0 exactly when no code produced a symbol |
| Rollup.CorrectedRollupAgreesOnShortPathways | adherence.py:172 | with one-character symbols, the source's rollup fraction equals the intended one |
| Rollup.RollupBlankCounted | adherence.py:142-143 | appending "None" or "" leaves the sequence unchanged but raises the denominator by one |
| Rollup.ExactTakesPriority | adherence.py:145-153 | for a non-blank code that some step lists, rollup mode emits exactly what exact mode emits |
| Rollup.RollupAgreesWithExact | adherence.py:141-153 | when no code is blank and no unmatched code rolls up, the rollup sequence equals the exact one |
| Rollup.RollupNeedsCoveredCode | adherence.py:153-158 | against the expanded hierarchy, a code rolls up only if it is all digits, its value is positive, and some range covers it |
| Rollup.RollupLongSymbolFractionExceedsOne | adherence.py:172 | one non-blank code exactly matched by a step with a symbol of two or more characters gives a rollup fraction of at least 2/1, where the intended one is 1/1 |
| Rollup.RollupSymbolTenFraction | adherence.py:172 | in rollup mode, one non-blank code exactly matched by a step with the symbol "10" projects to "010" with fraction 2/1; the intended fraction is 1/1 |
| Rollup.TenStepRollupFractionExceedsOne | adherence.py:172 | the concrete input in rollup mode: code "x" against the ten-step pathway projects to "010" with fraction 2/1, where the intended fraction is 1/1 |
| Candidate.EncodedTargetScorable | adherence.py:179 | a target built by the encoder never makes the scoring table fail |
| Candidate.ShortTargetChars | adherence.py:82-85 | with at most nine steps, a character occurs in the target exactly when it is a digit no larger than N |
| Candidate.ShortTargetTable | adherence.py:179 | with at most nine steps, the table is keyed by exactly the pairs of digits '0'..'N' |
| Candidate.ProjectedWithinTarget | adherence.py:198-201 | every character of an exact projection against the encoder's mapping occurs in the target |
| Candidate.RollupWithinTarget | adherence.py:239-242 | every character of a rollup projection against the encoder's mapping occurs in the target; line 241 calls the undefined `construct_rollup_pcd_seq2`, read here as a call to `construct_rollup_pcd_seq` |
| Candidate.AlignmentLookupsDefined | adherence.py:179-188 | every pair of a target character and a character of the reduced projection is a key of the scoring table, in either order |

## Left out

- `initialize` (adherence.py:26-41) is left out because it does S3 and CSV I/O. It also uses `pd`, which is undefined, and it binds `data` and `cat_map` only as locals.
- `sequence_alignment` (adherence.py:175-190) calls Biopython's `pairwise2.align.globaldd`, a library outside this code, and normalises the score with floating-point division. The model stops at the inputs the aligner receives: the scoring table and the reduced sequences (`Candidate.AlignmentLookupsDefined`).
- `seq_alignment_adherence`, `generous_adherence` and `rollup_adherence` (adherence.py:193-251) are left out. They take a float max and `round`, `print`, read globals that are never set, and turn any exception into -1.0. Two observations about them:
  - `rollup_adherence` calls `construct_rollup_pcd_seq2`, which does not exist (adherence.py:241).
  - `generous_adherence` reads `adherence` before assigning it when the first candidate's fraction is 0 (adherence.py:223-227).
- `create_udf` (adherence.py:254-258) is left out because it is a PySpark wrapper.
- The second copy of `get_category_map` (adherence.py:125-133) has the same code as the first (only the docstring differs) and is modelled once, as `Hierarchy.CategoryMap`.
- Rollup.HasCategory compares categories with string equality. The source uses `is` (object identity, adherence.py:166). Identity between equal strings depends on how the interpreter stores them.
- Projector.ConstructPcdSeq and Rollup.ConstructRollupPcdSeq require `Named`: every step name must be a mapping key. The source raises `KeyError` only when a matched step lacks a key. Its callers always pass the encoder's mapping, which names every step (`Projector.EncodingFitsProjector`).
- Float division is modelled as an exact fraction. The model does not cover rounding.
- `isdigit` and `int()` are modelled on ASCII digits only. Python also accepts other Unicode digits.

## Findings

| source | as written | input that shows it | evidently intended | confidence | as-written member | corrected member |
|---|---|---|---|---|---|---|
| adherence.py:112 | the match fraction is `(len(pcd_seq) - 1) / len(procedures)`, which counts characters, while the symbol `str(k)` of step 10 onwards has two or more characters | a ten-step pathway in which only step 10 lists code "x", with procedures ["x"]: `pcd_seq` is "010" and the fraction is 2/1 | the share of codes that matched a step, always in [0, 1] | not executed | Projector.TenStepFractionExceedsOne | Projector.CorrectedPcdSeq |
| adherence.py:172 | the same character-counting fraction in the rollup projector | the same pathway and procedures ["x"] in rollup mode: `pcd_seq` is "010" and the fraction is 2/1 | the share of codes that produced a symbol, always in [0, 1] | not executed | Rollup.TenStepRollupFractionExceedsOne | Rollup.CorrectedRollupPcdSeq |
