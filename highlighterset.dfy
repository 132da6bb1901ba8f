/**
 * A named, ordered set of rules (`HighlighterSet`) and how it combines its
 * rules' results on one line (`HighlighterSet::matchLine`).
 *
 * The multi-pattern prefilter and each rule's regular expression are not
 * modelled; their results for the line are the input `LineScan`.
 */
module HighlighterSets {
  import opened Colors
  import opened Highlighters

  datatype HighlighterSet = HighlighterSet(name: string, id: string, highlighterList: seq<Highlighter>)

  datatype HighlighterMatchType = NoMatch | WordMatch | LineMatch

  /** `HighlightedMatchRanges`: the caller's buffer of ranges, which matching appends to and clears. */
  class HighlightedMatchRanges {
    var ranges: seq<HighlightedMatch>

    constructor ()
      ensures ranges == []
    {
      ranges := [];
    }

    method AddMatch(m: HighlightedMatch)
      modifies this
      ensures ranges == old(ranges) + [m]
    {
      ranges := ranges + [m];
    }

    method AddMatches(ms: seq<HighlightedMatch>)
      modifies this
      ensures ranges == old(ranges) + ms
    {
      ranges := ranges + ms;
    }

    method Clear()
      modifies this
      ensures ranges == []
    {
      ranges := [];
    }
  }

  /** `HighlighterSet::compile`: the prefilter patterns, one per rule, in rule order. */
  function CompilePatterns(hs: HighlighterSet): (r: seq<RegularExpressionPattern>)
    ensures |r| == |hs.highlighterList|
    ensures forall i :: 0 <= i < |r| ==> r[i] == ExpressionPattern(hs.highlighterList[i])
    ensures forall i :: 0 <= i < |r| ==> r[i].isPrefilter
  {
    seq(|hs.highlighterList|, i requires 0 <= i < |hs.highlighterList| => ExpressionPattern(hs.highlighterList[i]))
  }

  /**
   * What the collaborators report for one line: `line.size()`, the
   * prefilter's verdict for each pattern (in pattern order) and, for each
   * rule, what its own regular expression's `globalMatch` finds.
   */
  datatype LineScan = LineScan(lineSize: nat, prefilter: seq<bool>, regex: seq<GlobalMatch>)

  /** The prefilter answers once per pattern, and there is one regex result per rule. */
  predicate Fits(rules: seq<Highlighter>, scan: LineScan) {
    |scan.prefilter| == |rules| && |scan.regex| == |rules|
  }

  /** The range a whole-line rule records: the full line in the rule's own colours. */
  function WholeLine(h: Highlighter, lineSize: nat): (r: HighlightedMatch)
    ensures r.startColumn == 0 && r.length == lineSize
    ensures r.foreColor == Plain(h.foreColor) && r.backColor == Plain(h.backColor)
  {
    HighlightedMatch(0, lineSize, Plain(h.foreColor), Plain(h.backColor))
  }

  /** The match type and the buffer's ranges. */
  datatype Outcome = Outcome(matchType: HighlighterMatchType, ranges: seq<HighlightedMatch>)

  /** The ranges rule `i`'s own `matchLine` emits on the line. */
  function RuleRanges(rules: seq<Highlighter>, scan: LineScan, cv: ColorVariation, i: int): (r: seq<HighlightedMatch>)
    requires Fits(rules, scan) && 0 <= i < |rules|
  {
    Emitted(rules[i], scan.regex[i], cv)
  }

  /** Rule `i` takes part: the prefilter said "maybe" and its own `matchLine` returned true. */
  predicate Contributes(rules: seq<Highlighter>, scan: LineScan, cv: ColorVariation, i: int)
    requires Fits(rules, scan) && 0 <= i < |rules|
  {
    scan.prefilter[i] && RuleRanges(rules, scan, cv, i) != []
  }

  /**
   * Which rules take part, in terms of the regex's own matches: the
   * prefilter accepted the rule and some match yields a range (any match
   * when the regex has no groups, one that captured a group otherwise).
   */
  lemma ContributesIff(rules: seq<Highlighter>, scan: LineScan, cv: ColorVariation, i: int)
    requires Fits(rules, scan) && 0 <= i < |rules|
    ensures Contributes(rules, scan, cv, i) <==>
            scan.prefilter[i] &&
            exists k :: 0 <= k < |scan.regex[i].matches| &&
                        (scan.regex[i].captureCount == 0 || scan.regex[i].matches[k].lastCapturedIndex >= 1)
  {
    EmittedNonEmptyIff(rules[i], scan.regex[i].captureCount, scan.regex[i].matches, cv);
  }

  /** A contributing rule that colours the whole line (`highlightOnlyMatch` false). */

  predicate LineRuleContributes(rules: seq<Highlighter>, scan: LineScan, cv: ColorVariation, i: int)
    requires Fits(rules, scan) && 0 <= i < |rules|
  {
    Contributes(rules, scan, cv, i) && !rules[i].highlightOnlyMatch
  }

  /** A contributing rule that colours only its matches (`highlightOnlyMatch` true). */
  predicate WordRuleContributes(rules: seq<Highlighter>, scan: LineScan, cv: ColorVariation, i: int)
    requires Fits(rules, scan) && 0 <= i < |rules|
  {
    Contributes(rules, scan, cv, i) && rules[i].highlightOnlyMatch
  }

  /** One iteration of the loop in `HighlighterSet::matchLine`, for rule `i`. */
  function Step(rules: seq<Highlighter>, scan: LineScan, cv: ColorVariation, i: int, o: Outcome): (r: Outcome)
    requires Fits(rules, scan) && 0 <= i < |rules|
    ensures !Contributes(rules, scan, cv, i) ==> r == o
    ensures Contributes(rules, scan, cv, i) ==> r.matchType != NoMatch
    ensures o.matchType == LineMatch ==> r.matchType == LineMatch
  {
    if !Contributes(rules, scan, cv, i) then o
    else if rules[i].highlightOnlyMatch then
      Outcome(if o.matchType == LineMatch then LineMatch else WordMatch, o.ranges + RuleRanges(rules, scan, cv, i))
    else
      Outcome(LineMatch, [WholeLine(rules[i], scan.lineSize)])
  }

  /** The outcome once the loop, starting from `init`, has visited rules |rules|-1 down to `i`. */
  function Fold(rules: seq<Highlighter>, scan: LineScan, cv: ColorVariation, i: int, init: Outcome): (r: Outcome)
    requires Fits(rules, scan) && 0 <= i <= |rules|
    ensures init.matchType == LineMatch ==> r.matchType == LineMatch
    ensures r.matchType == NoMatch ==> r == init
    decreases |rules| - i
  {
    if i == |rules| then init else Step(rules, scan, cv, i, Fold(rules, scan, cv, i + 1, init))
  }

  /**
   * `HighlighterSet::matchLine`. The buffer is not cleared on entry; the
   * rules are visited from last to first; a match-only rule appends its
   * ranges, a whole-line rule replaces everything with one full-line range.
   */
  method MatchLine(hs: HighlighterSet, scan: LineScan, cv: ColorVariation, matches: HighlightedMatchRanges)
    returns (matchType: HighlighterMatchType)
    requires Fits(hs.highlighterList, scan)
    modifies matches
    ensures hs.highlighterList == [] ==> matchType == NoMatch && matches.ranges == old(matches.ranges)
    ensures Outcome(matchType, matches.ranges) ==
            Fold(hs.highlighterList, scan, cv, 0, Outcome(NoMatch, old(matches.ranges)))
  {
    var rules := hs.highlighterList;
    if |rules| == 0 {
      return NoMatch;
    }
    ghost var init := Outcome(NoMatch, matches.ranges);
    matchType := NoMatch;
    var index := |rules| - 1;
    while index >= 0
      invariant -1 <= index < |rules|
      invariant Outcome(matchType, matches.ranges) == Fold(rules, scan, cv, index + 1, init)
    {
      var hl := rules[index];
      if !scan.prefilter[index] {
        index := index - 1;
        continue;
      }
      var found, thisMatches := Highlighters.MatchLine(hl, scan.regex[index], cv);
      if !found {
        index := index - 1;
        continue;
      }
      if hl.highlightOnlyMatch {
        if matchType != LineMatch {
          matchType := WordMatch;
        }
        matches.AddMatches(thisMatches);
      } else {
        matchType := LineMatch;
        matches.Clear();
        matches.AddMatch(WholeLine(hl, scan.lineSize));
      }
      index := index - 1;
    }
  }

  // ---------------------------------------------------------------------
  // What the combination computes

  /** The ranges of the contributing match-only rules with index in [lo, hi), highest index first. */
  function WordRangesBetween(rules: seq<Highlighter>, scan: LineScan, cv: ColorVariation, lo: int, hi: int): (r: seq<HighlightedMatch>)
    requires Fits(rules, scan) && 0 <= lo <= hi <= |rules|
    decreases hi - lo
  {
    if lo == hi then []
    else WordRangesBetween(rules, scan, cv, lo + 1, hi) +
         (if WordRuleContributes(rules, scan, cv, lo) then RuleRanges(rules, scan, cv, lo) else [])
  }

  /** The earliest-declared contributing whole-line rule at or after `i`, or |rules| if there is none. */
  function FirstLineRule(rules: seq<Highlighter>, scan: LineScan, cv: ColorVariation, i: int): (w: int)
    requires Fits(rules, scan) && 0 <= i <= |rules|
    ensures i <= w <= |rules|
    ensures w < |rules| ==> LineRuleContributes(rules, scan, cv, w)
    ensures forall j :: i <= j < w ==> !LineRuleContributes(rules, scan, cv, j)
    decreases |rules| - i
  {
    if i == |rules| then i
    else if LineRuleContributes(rules, scan, cv, i) then i
    else FirstLineRule(rules, scan, cv, i + 1)
  }

  /**
   * Over a stretch [lo, hi) with no contributing whole-line rule, the loop
   * only appends the match-only ranges, highest index first, and a line
   * match already recorded stays a line match.
   */
  lemma {:induction false} FoldWithoutLineRules(rules: seq<Highlighter>, scan: LineScan, cv: ColorVariation, lo: int, hi: int, init: Outcome)
    requires Fits(rules, scan) && 0 <= lo <= hi <= |rules|
    requires forall j :: lo <= j < hi ==> !LineRuleContributes(rules, scan, cv, j)
    ensures Fold(rules, scan, cv, lo, init).ranges ==
            Fold(rules, scan, cv, hi, init).ranges + WordRangesBetween(rules, scan, cv, lo, hi)
    ensures Fold(rules, scan, cv, lo, init).matchType ==
            if Fold(rules, scan, cv, hi, init).matchType == LineMatch then LineMatch
            else if exists j :: lo <= j < hi && WordRuleContributes(rules, scan, cv, j) then WordMatch
            else Fold(rules, scan, cv, hi, init).matchType
  {
    FoldRangesWithoutLineRules(rules, scan, cv, lo, hi, init);
    FoldTypeWithoutLineRules(rules, scan, cv, lo, hi, init);
  }

  /** The ranges half of `FoldWithoutLineRules`. */
  lemma {:induction false} FoldRangesWithoutLineRules(rules: seq<Highlighter>, scan: LineScan, cv: ColorVariation, lo: int, hi: int, init: Outcome)
    requires Fits(rules, scan) && 0 <= lo <= hi <= |rules|
    requires forall j :: lo <= j < hi ==> !LineRuleContributes(rules, scan, cv, j)
    ensures Fold(rules, scan, cv, lo, init).ranges ==
            Fold(rules, scan, cv, hi, init).ranges + WordRangesBetween(rules, scan, cv, lo, hi)
    decreases hi - lo
  {
    if lo < hi {
      FoldRangesWithoutLineRules(rules, scan, cv, lo + 1, hi, init);
      var prev := Fold(rules, scan, cv, lo + 1, init);
      assert Fold(rules, scan, cv, lo, init) == Step(rules, scan, cv, lo, prev);
      StepWithoutLineRule(rules, scan, cv, lo, prev);
      var own := if WordRuleContributes(rules, scan, cv, lo) then RuleRanges(rules, scan, cv, lo) else [];
      var base, later := Fold(rules, scan, cv, hi, init).ranges, WordRangesBetween(rules, scan, cv, lo + 1, hi);
      assert WordRangesBetween(rules, scan, cv, lo, hi) == later + own;
      assert prev.ranges == base + later;
      assert (base + later) + own == base + (later + own);
    }
  }

  /** One step at a rule that does not contribute a whole line: its word ranges, if any, are appended. */
  lemma StepWithoutLineRule(rules: seq<Highlighter>, scan: LineScan, cv: ColorVariation, i: int, o: Outcome)
    requires Fits(rules, scan) && 0 <= i < |rules|
    requires !LineRuleContributes(rules, scan, cv, i)
    ensures Step(rules, scan, cv, i, o).ranges ==
            o.ranges + (if WordRuleContributes(rules, scan, cv, i) then RuleRanges(rules, scan, cv, i) else [])
  {
    if !WordRuleContributes(rules, scan, cv, i) {
      assert o.ranges + [] == o.ranges;
    }
  }

  /** The result-kind half of `FoldWithoutLineRules`. */
  lemma {:induction false} FoldTypeWithoutLineRules(rules: seq<Highlighter>, scan: LineScan, cv: ColorVariation, lo: int, hi: int, init: Outcome)
    requires Fits(rules, scan) && 0 <= lo <= hi <= |rules|
    requires forall j :: lo <= j < hi ==> !LineRuleContributes(rules, scan, cv, j)
    ensures Fold(rules, scan, cv, lo, init).matchType ==
            if Fold(rules, scan, cv, hi, init).matchType == LineMatch then LineMatch
            else if exists j :: lo <= j < hi && WordRuleContributes(rules, scan, cv, j) then WordMatch
            else Fold(rules, scan, cv, hi, init).matchType
    decreases hi - lo
  {
    if lo < hi {
      FoldTypeWithoutLineRules(rules, scan, cv, lo + 1, hi, init);
      var prev := Fold(rules, scan, cv, lo + 1, init);
      assert Fold(rules, scan, cv, lo, init) == Step(rules, scan, cv, lo, prev);
      assert !LineRuleContributes(rules, scan, cv, lo);
      if WordRuleContributes(rules, scan, cv, lo) {
        assert Step(rules, scan, cv, lo, prev).matchType ==
               if prev.matchType == LineMatch then LineMatch else WordMatch;
      } else if exists j :: lo + 1 <= j < hi && WordRuleContributes(rules, scan, cv, j) {
        var j :| lo + 1 <= j < hi && WordRuleContributes(rules, scan, cv, j);
        assert lo <= j < hi;
      } else {
        assert forall j :: lo <= j < hi ==> !WordRuleContributes(rules, scan, cv, j);
      }
    }
  }

  /**
   * The whole outcome of `HighlighterSet::matchLine` from a buffer holding
   * `pre`. If some whole-line rule contributes, the earliest-declared one,
   * w, wins: the result is a line match whose ranges are w's full-line range
   * followed by the ranges of the contributing match-only rules declared
   * before w, in reverse declaration order (what was in the buffer, and
   * everything from rules after w, is gone). Otherwise the ranges of all
   * contributing match-only rules, in reverse declaration order, follow
   * `pre`, and the type is a word match if there are any.
   */
  lemma MatchLineOutcome(rules: seq<Highlighter>, scan: LineScan, cv: ColorVariation, pre: seq<HighlightedMatch>)
    requires Fits(rules, scan)
    ensures var w := FirstLineRule(rules, scan, cv, 0);
            Fold(rules, scan, cv, 0, Outcome(NoMatch, pre)) ==
              if w < |rules| then
                Outcome(LineMatch, [WholeLine(rules[w], scan.lineSize)] + WordRangesBetween(rules, scan, cv, 0, w))
              else
                Outcome(if exists j :: 0 <= j < |rules| && WordRuleContributes(rules, scan, cv, j) then WordMatch else NoMatch,
                        pre + WordRangesBetween(rules, scan, cv, 0, |rules|))
  {
    var w := FirstLineRule(rules, scan, cv, 0);
    var init := Outcome(NoMatch, pre);
    FoldWithoutLineRules(rules, scan, cv, 0, w, init);
    if w < |rules| {
      assert Fold(rules, scan, cv, w, init) == Outcome(LineMatch, [WholeLine(rules[w], scan.lineSize)]);
    }
  }

  /** The earliest-declared contributing whole-line rule decides the colours of the line. */
  lemma EarliestWholeLineRuleWins(rules: seq<Highlighter>, scan: LineScan, cv: ColorVariation, pre: seq<HighlightedMatch>, w: int)
    requires Fits(rules, scan) && 0 <= w < |rules|
    requires LineRuleContributes(rules, scan, cv, w)
    requires forall j :: 0 <= j < w ==> !LineRuleContributes(rules, scan, cv, j)
    ensures Fold(rules, scan, cv, 0, Outcome(NoMatch, pre)) ==
            Outcome(LineMatch, [WholeLine(rules[w], scan.lineSize)] + WordRangesBetween(rules, scan, cv, 0, w))
  {
    MatchLineOutcome(rules, scan, cv, pre);
  }

  /**
   * The result type: a line match exactly when some whole-line rule
   * contributes, a word match exactly when none does and some match-only
   * rule does, and no match otherwise.
   */
  lemma MatchTypeIff(rules: seq<Highlighter>, scan: LineScan, cv: ColorVariation, pre: seq<HighlightedMatch>)
    requires Fits(rules, scan)
    ensures var t := Fold(rules, scan, cv, 0, Outcome(NoMatch, pre)).matchType;
            && (t == LineMatch <==> exists i :: 0 <= i < |rules| && LineRuleContributes(rules, scan, cv, i))
            && (t == WordMatch <==>
                  (forall i :: 0 <= i < |rules| ==> !LineRuleContributes(rules, scan, cv, i)) &&
                  (exists i :: 0 <= i < |rules| && WordRuleContributes(rules, scan, cv, i)))
  {
    MatchLineOutcome(rules, scan, cv, pre);
    var w := FirstLineRule(rules, scan, cv, 0);
    if exists i :: 0 <= i < |rules| && LineRuleContributes(rules, scan, cv, i) {
      var i :| 0 <= i < |rules| && LineRuleContributes(rules, scan, cv, i);
      assert w <= i;
    }
  }

  /**
   * Match-only ranges of rules declared before the winning whole-line rule
   * survive after its full-line range: with a match-only rule A declared
   * before a whole-line rule B and both matching, A's ranges follow B's.
   */
  lemma EarlierWordRangesSurviveWholeLine(a: Highlighter, b: Highlighter, scan: LineScan, cv: ColorVariation, pre: seq<HighlightedMatch>)
    requires Fits([a, b], scan)
    requires a.highlightOnlyMatch && !b.highlightOnlyMatch
    requires Contributes([a, b], scan, cv, 0) && Contributes([a, b], scan, cv, 1)
    ensures Fold([a, b], scan, cv, 0, Outcome(NoMatch, pre)) ==
            Outcome(LineMatch, [WholeLine(b, scan.lineSize)] + Emitted(a, scan.regex[0], cv))
    ensures |Fold([a, b], scan, cv, 0, Outcome(NoMatch, pre)).ranges| > 1
  {
    EarliestWholeLineRuleWins([a, b], scan, cv, pre, 1);
    assert WordRangesBetween([a, b], scan, cv, 1, 1) == [];
  }

  /** Whether a rule takes part is all that matters: two scans that agree on it give the same outcome. */
  lemma {:induction false} FoldDependsOnlyOnContributions(rules: seq<Highlighter>, s1: LineScan, s2: LineScan, cv: ColorVariation, i: int, init: Outcome)
    requires Fits(rules, s1) && Fits(rules, s2) && 0 <= i <= |rules|
    requires s1.lineSize == s2.lineSize && s1.regex == s2.regex
    requires forall j :: i <= j < |rules| ==> (Contributes(rules, s1, cv, j) <==> Contributes(rules, s2, cv, j))
    ensures Fold(rules, s1, cv, i, init) == Fold(rules, s2, cv, i, init)
    decreases |rules| - i
  {
    if i < |rules| {
      FoldDependsOnlyOnContributions(rules, s1, s2, cv, i + 1, init);
    }
  }

  /**
   * The prefilter only saves work: when it never says "no" for a rule
   * whose own match emits ranges, the outcome is the one obtained by running
   * every rule's own match.
   */
  lemma PrefilterOnlyPrunes(rules: seq<Highlighter>, scan: LineScan, cv: ColorVariation, init: Outcome)
    requires Fits(rules, scan)
    requires forall i :: 0 <= i < |rules| && RuleRanges(rules, scan, cv, i) != [] ==> scan.prefilter[i]
    ensures Fold(rules, scan, cv, 0, init) ==
            Fold(rules, scan.(prefilter := seq(|rules|, _ => true)), cv, 0, init)
  {
    var all := scan.(prefilter := seq(|rules|, _ => true));
    FoldDependsOnlyOnContributions(rules, scan, all, cv, 0, init);
  }
}
