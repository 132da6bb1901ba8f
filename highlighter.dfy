/**
 * One highlighting rule (`Highlighter` in highlighterset.cpp): its effective
 * pattern, its colour variation and the ranges its own `matchLine` emits.
 *
 * The regular-expression engine is not modelled: what `globalMatch` finds
 * on a line is an input (`GlobalMatch`), and so are the CRC-32 of a matched
 * text and the pseudo-random draw that varies a colour (`ColorVariation`).
 */
module Highlighters {
  import opened Colors

  /** The two `QRegularExpression` pattern options this code sets. */
  datatype PatternOption = UseUnicodeProperties | CaseInsensitive

  /** `getPatternOptions`: Unicode properties always, case-insensitivity on request. */
  function GetPatternOptions(ignoreCase: bool): (r: set<PatternOption>)
    ensures UseUnicodeProperties in r
    ensures CaseInsensitive in r <==> ignoreCase
    ensures forall o :: o in r ==> o == UseUnicodeProperties || o == CaseInsensitive
  {
    if ignoreCase then {UseUnicodeProperties, CaseInsensitive} else {UseUnicodeProperties}
  }

  /**
   * A rule. `ignoreCase` stands for the case-insensitive option of the
   * rule's `QRegularExpression`, which is always built by `GetPatternOptions`.
   * `highlightOnlyMatch` false makes it a whole-line rule.
   */
  datatype Highlighter = Highlighter(
    pattern: string,
    ignoreCase: bool,
    useRegex: bool,
    highlightOnlyMatch: bool,
    variateColors: bool,
    colorVariance: int,
    foreColor: Color,
    backColor: Color)

  /**
   * The constructor `Highlighter(pattern, ignoreCase, onlyMatch, fore, back)`.
   * It does not set `useRegex`, `variateColors` or `colorVariance`: those keep
   * their member initialisers, declared in highlighterset.h, which is not part
   * of this model, so here they are parameters.
   */
  function NewHighlighter(pattern: string, ignoreCase: bool, onlyMatch: bool, fore: Color, back: Color,
                          useRegex: bool, variateColors: bool, colorVariance: int): (h: Highlighter)
    ensures h.pattern == pattern && h.highlightOnlyMatch == onlyMatch
    ensures (CaseInsensitive in GetPatternOptions(h.ignoreCase)) == ignoreCase
    ensures h.foreColor == fore && h.backColor == back
  {
    Highlighter(pattern, ignoreCase, useRegex, onlyMatch, variateColors, colorVariance, fore, back)
  }

  // ---------------------------------------------------------------------
  // Escaping a literal pattern (QRegularExpression::escape)

  /** The characters Qt leaves unescaped: [A-Za-z0-9_]. */
  predicate IsWordChar(c: char) {
    ('a' <= c <= 'z') || ('A' <= c <= 'Z') || ('0' <= c <= '9') || c == '_'
  }

  function EscapeChar(c: char): (r: string)
    ensures 1 <= |r| <= 2
  {
    if c == '\0' then ['\\', '0']
    else if IsWordChar(c) then [c]
    else ['\\', c]
  }

  /**
   * `QRegularExpression::escape`: every character other than [A-Za-z0-9_]
   * gets a backslash in front of it, and NUL becomes the two characters `\0`.
   */
  function Escape(s: string): (r: string)
    ensures |s| <= |r| <= 2 * |s|
  {
    if s == [] then [] else EscapeChar(s[0]) + Escape(s[1..])
  }

  /** Reads an escaped pattern back as the literal it stands for. */
  function Unescape(r: string): (s: string)
    ensures |s| <= |r|
  {
    if |r| >= 2 && r[0] == '\\' then [if r[1] == '0' then '\0' else r[1]] + Unescape(r[2..])
    else if r == [] then []
    else [r[0]] + Unescape(r[1..])
  }

  /** Escaping loses nothing: the escaped pattern spells exactly the literal text. */
  lemma {:induction false} UnescapeEscape(s: string)
    ensures Unescape(Escape(s)) == s
  {
    if s != [] {
      var e := EscapeChar(s[0]);
      var rest := Escape(s[1..]);
      assert Escape(s) == e + rest;
      UnescapeEscape(s[1..]);
      if |e| == 2 {
        assert (e + rest)[2..] == rest;
      } else {
        assert (e + rest)[1..] == rest;
      }
    }
  }

  /**
   * A pattern without an unescaped metacharacter: it is made of word
   * characters and of backslash pairs, each of which stands for its second
   * character taken literally.
   */
  predicate Literal(p: string)
    decreases |p|
  {
    if p == [] then true
    else if p[0] == '\\' then |p| >= 2 && Literal(p[2..])
    else IsWordChar(p[0]) && Literal(p[1..])
  }

  /** An escaped text has no unescaped metacharacter left, so a regex engine reads it literally. */
  lemma {:induction false} EscapeIsLiteral(s: string)
    ensures Literal(Escape(s))
  {
    if s != [] {
      var e := EscapeChar(s[0]);
      var rest := Escape(s[1..]);
      assert Escape(s) == e + rest;
      EscapeIsLiteral(s[1..]);
      if |e| == 2 {
        assert (e + rest)[0] == '\\';
        assert (e + rest)[2..] == rest;
      } else {
        assert (e + rest)[0] == s[0] && IsWordChar(s[0]);
        assert (e + rest)[1..] == rest;
      }
    }
  }

  /** Two literals that differ give two patterns that differ. */
  lemma EscapeInjective(s: string, t: string)
    requires Escape(s) == Escape(t)
    ensures s == t
  {
    UnescapeEscape(s);
    UnescapeEscape(t);
  }

  // ---------------------------------------------------------------------
  // Effective pattern (expressionPattern, compile)

  /** `RegularExpressionPattern`: what a rule hands to the multi-pattern prefilter. */
  datatype RegularExpressionPattern = RegularExpressionPattern(pattern: string, isCaseSensitive: bool, isPrefilter: bool)

  /** The pattern source a rule matches with: its text, escaped unless it is a regular expression. */
  function EffectivePattern(h: Highlighter): (p: string)
    ensures h.useRegex ==> p == h.pattern
    ensures !h.useRegex ==> p == Escape(h.pattern)
    ensures !h.useRegex ==> Literal(p) && Unescape(p) == h.pattern
  {
    if h.useRegex then h.pattern
    else
      UnescapeEscape(h.pattern);
      EscapeIsLiteral(h.pattern);
      Escape(h.pattern)
  }

  /** `Highlighter::expressionPattern`. */
  function ExpressionPattern(h: Highlighter): (r: RegularExpressionPattern)
    ensures r.pattern == EffectivePattern(h)
    ensures r.isCaseSensitive <==> !(CaseInsensitive in GetPatternOptions(h.ignoreCase))
    ensures r.isPrefilter
  {
    RegularExpressionPattern(EffectivePattern(h), !h.ignoreCase, true)
  }

  /** The `QRegularExpression` that `Highlighter::compile` builds. */
  datatype CompiledRegex = CompiledRegex(pattern: string, options: set<PatternOption>)

  /** `Highlighter::compile`. */
  function Compile(h: Highlighter): (r: CompiledRegex)
    ensures r.pattern == EffectivePattern(h)
    ensures r.options == GetPatternOptions(h.ignoreCase)
  {
    CompiledRegex(EffectivePattern(h), GetPatternOptions(h.ignoreCase))
  }

  /** The rule's own matcher and the prefilter pattern agree on pattern text and on case sensitivity. */
  lemma CompileAgreesWithExpressionPattern(h: Highlighter)
    ensures Compile(h).pattern == ExpressionPattern(h).pattern
    ensures CaseInsensitive in Compile(h).options <==> !ExpressionPattern(h).isCaseSensitive
  {
  }

  // ---------------------------------------------------------------------
  // Colour variation (vairateColors)

  /**
   * The library routines behind colour variation: the CRC-32 of the UTF-8
   * bytes of a text, and one draw of `std::uniform_int_distribution(lo, hi)`
   * from a `std::minstd_rand0` seeded with that checksum.
   */
  datatype ColorVariation = ColorVariation(checksum: string -> bv32, draw: (bv32, int, int) -> int)

  /** A uniform distribution over [lo, hi] only ever yields values in [lo, hi]. */
  ghost predicate Sound(cv: ColorVariation) {
    forall seed: bv32, lo: int, hi: int :: lo <= hi ==> lo <= cv.draw(seed, lo, hi) <= hi
  }

  /** The darkening factor a matched text gets: drawn from [100 - variance, 100 + variance]. */
  function DarkerFactor(cv: ColorVariation, text: string, variance: int): (f: int)
    ensures Sound(cv) && 0 <= variance ==> 100 - variance <= f <= 100 + variance
  {
    DrawInRange(cv, cv.checksum(text), 100 - variance, 100 + variance);
    cv.draw(cv.checksum(text), 100 - variance, 100 + variance)
  }

  lemma DrawInRange(cv: ColorVariation, seed: bv32, lo: int, hi: int)
    ensures Sound(cv) && lo <= hi ==> lo <= cv.draw(seed, lo, hi) <= hi
  {
  }

  /**
   * `Highlighter::vairateColors`: the rule's own colours unless it both
   * varies colours and highlights only the match; then both colours darkened
   * by one factor derived from the matched text.
   */
  function VariateColors(h: Highlighter, text: string, cv: ColorVariation): (r: (Shade, Shade))
    ensures !(h.variateColors && h.highlightOnlyMatch) ==> r == (Plain(h.foreColor), Plain(h.backColor))
    ensures h.variateColors && h.highlightOnlyMatch ==>
      && r.0.Darkened? && r.0.base == h.foreColor
      && r.1 == Darkened(h.backColor, r.0.factor)
      && (Sound(cv) && 0 <= h.colorVariance ==>
            100 - h.colorVariance <= r.0.factor <= 100 + h.colorVariance)
  {
    if !(h.variateColors && h.highlightOnlyMatch) then
      (Plain(h.foreColor), Plain(h.backColor))
    else
      var factor := DarkerFactor(cv, text, h.colorVariance);
      (Darkened(h.foreColor, factor), Darkened(h.backColor, factor))
  }

  /** The colours depend on the matched text only through its checksum. */
  lemma VariationDependsOnlyOnChecksum(h: Highlighter, m1: string, m2: string, cv: ColorVariation)
    requires cv.checksum(m1) == cv.checksum(m2)
    ensures VariateColors(h, m1, cv) == VariateColors(h, m2, cv)
  {
  }

  // ---------------------------------------------------------------------
  // Highlighter::matchLine

  /** One capture group of a match: `capturedStart`, `capturedLength` and `captured`. */
  datatype Capture = Capture(start: int, length: int, text: string)

  /** One match of a global match: its groups (group 0 first) and `lastCapturedIndex`. */
  datatype RegexMatch = RegexMatch(captures: seq<Capture>, lastCapturedIndex: int)

  /** What `globalMatch` finds on a line, with the `captureCount` of the compiled pattern. */
  datatype GlobalMatch = GlobalMatch(captureCount: nat, matches: seq<RegexMatch>)

  /** A highlighted range of a line and the colours it is painted with. */
  datatype HighlightedMatch = HighlightedMatch(startColumn: int, length: int, foreColor: Shade, backColor: Shade)

  /** Group `i` of a match; a group Qt knows nothing about starts at -1, is empty and has a null text. */
  function Captured(m: RegexMatch, i: int): (c: Capture)
    ensures !(0 <= i < |m.captures|) ==> c == Capture(-1, 0, "")
  {
    if 0 <= i < |m.captures| then m.captures[i] else Capture(-1, 0, "")
  }

  /** The range a rule emits for one capture group, coloured by `vairateColors` of the group's text. */
  function RangeOf(h: Highlighter, c: Capture, cv: ColorVariation): (r: HighlightedMatch)
    ensures r.startColumn == c.start && r.length == c.length
    ensures (r.foreColor, r.backColor) == VariateColors(h, c.text, cv)
  {
    var colors := VariateColors(h, c.text, cv);
    HighlightedMatch(c.start, c.length, colors.0, colors.1)
  }

  /** The ranges of groups 1..n of a match, in group order. */
  function GroupRanges(h: Highlighter, m: RegexMatch, cv: ColorVariation, n: int): (r: seq<HighlightedMatch>)
    decreases n
  {
    if n <= 0 then [] else GroupRanges(h, m, cv, n - 1) + [RangeOf(h, Captured(m, n), cv)]
  }

  /** The ranges one match contributes: groups 1..lastCapturedIndex when the pattern has groups, else group 0. */
  function MatchRanges(h: Highlighter, captureCount: nat, m: RegexMatch, cv: ColorVariation): (r: seq<HighlightedMatch>)
  {
    if captureCount > 0 then GroupRanges(h, m, cv, m.lastCapturedIndex)
    else [RangeOf(h, Captured(m, 0), cv)]
  }

  /** The ranges a sequence of matches contributes, match after match. */
  function EmittedFrom(h: Highlighter, captureCount: nat, ms: seq<RegexMatch>, cv: ColorVariation): (r: seq<HighlightedMatch>)
    decreases |ms|
  {
    if ms == [] then []
    else EmittedFrom(h, captureCount, ms[..|ms| - 1], cv) + MatchRanges(h, captureCount, ms[|ms| - 1], cv)
  }

  /** The ranges `Highlighter::matchLine` leaves in its output for one line. */
  function Emitted(h: Highlighter, gm: GlobalMatch, cv: ColorVariation): (r: seq<HighlightedMatch>)
  {
    EmittedFrom(h, gm.captureCount, gm.matches, cv)
  }

  /** The inner loop of `Highlighter::matchLine`: one range per group 1..lastCapturedIndex appended. */
  method EmitGroups(h: Highlighter, m: RegexMatch, cv: ColorVariation, matches: seq<HighlightedMatch>)
    returns (out: seq<HighlightedMatch>)
    ensures out == matches + GroupRanges(h, m, cv, m.lastCapturedIndex)
  {
    out := matches;
    var i := 1;
    while i <= m.lastCapturedIndex
      invariant 1 <= i <= (if m.lastCapturedIndex < 1 then 1 else m.lastCapturedIndex + 1)
      invariant out == matches + GroupRanges(h, m, cv, i - 1)
    {
      var colors := VariateColors(h, Captured(m, i).text, cv);
      out := out + [HighlightedMatch(Captured(m, i).start, Captured(m, i).length, colors.0, colors.1)];
      i := i + 1;
    }
  }

  /**
   * `Highlighter::matchLine`: the output vector is cleared, then each
   * match of the global match appends its ranges; the result says whether
   * any range was emitted.
   */
  method MatchLine(h: Highlighter, gm: GlobalMatch, cv: ColorVariation) returns (found: bool, matches: seq<HighlightedMatch>)
    ensures matches == Emitted(h, gm, cv)
    ensures found <==> matches != []
  {
    matches := [];
    var k := 0;
    while k < |gm.matches|
      invariant 0 <= k <= |gm.matches|
      invariant matches == EmittedFrom(h, gm.captureCount, gm.matches[..k], cv)
    {
      var m := gm.matches[k];
      ghost var before := matches;
      if gm.captureCount > 0 {
        matches := EmitGroups(h, m, cv, matches);
      } else {
        var colors := VariateColors(h, Captured(m, 0).text, cv);
        matches := matches + [HighlightedMatch(Captured(m, 0).start, Captured(m, 0).length, colors.0, colors.1)];
      }
      assert matches == before + MatchRanges(h, gm.captureCount, m, cv);
      assert gm.matches[..k + 1][..k] == gm.matches[..k];
      k := k + 1;
    }
    assert gm.matches[..k] == gm.matches;
    found := matches != [];
  }

  // ---------------------------------------------------------------------
  // What matchLine emits

  /** How many ranges one match contributes. */
  function RangesPerMatch(captureCount: nat, m: RegexMatch): (n: nat) {
    if captureCount == 0 then 1
    else if m.lastCapturedIndex < 0 then 0
    else m.lastCapturedIndex
  }

  function TotalRanges(captureCount: nat, ms: seq<RegexMatch>): (n: nat)
    decreases |ms|
  {
    if ms == [] then 0 else TotalRanges(captureCount, ms[..|ms| - 1]) + RangesPerMatch(captureCount, ms[|ms| - 1])
  }

  lemma {:induction false} GroupRangesShape(h: Highlighter, m: RegexMatch, cv: ColorVariation, n: int)
    ensures |GroupRanges(h, m, cv, n)| == (if n < 0 then 0 else n)
    ensures forall i :: 1 <= i <= n ==> GroupRanges(h, m, cv, n)[i - 1] == RangeOf(h, Captured(m, i), cv)
    decreases n
  {
    if n > 0 {
      GroupRangesShape(h, m, cv, n - 1);
    }
  }

  /**
   * A pattern with groups emits one range for each group 1..lastCapturedIndex
   * of each match, with no filter for groups that took no part; a pattern
   * without groups emits exactly one range, group 0, per match.
   */
  lemma {:induction false} EmittedSize(h: Highlighter, captureCount: nat, ms: seq<RegexMatch>, cv: ColorVariation)
    ensures |EmittedFrom(h, captureCount, ms, cv)| == TotalRanges(captureCount, ms)
    decreases |ms|
  {
    if ms != [] {
      EmittedSize(h, captureCount, ms[..|ms| - 1], cv);
      GroupRangesShape(h, ms[|ms| - 1], cv, ms[|ms| - 1].lastCapturedIndex);
    }
  }

  /** `matchLine` reports a match exactly when some match emits a range: always without groups, and with groups when some group 1.. took part. */
  lemma {:induction false} EmittedNonEmptyIff(h: Highlighter, captureCount: nat, ms: seq<RegexMatch>, cv: ColorVariation)
    ensures EmittedFrom(h, captureCount, ms, cv) != [] <==>
            exists k :: 0 <= k < |ms| && (captureCount == 0 || ms[k].lastCapturedIndex >= 1)
    decreases |ms|
  {
    if ms != [] {
      var init := ms[..|ms| - 1];
      EmittedNonEmptyIff(h, captureCount, init, cv);
      GroupRangesShape(h, ms[|ms| - 1], cv, ms[|ms| - 1].lastCapturedIndex);
      if exists k :: 0 <= k < |init| && (captureCount == 0 || init[k].lastCapturedIndex >= 1) {
        var k :| 0 <= k < |init| && (captureCount == 0 || init[k].lastCapturedIndex >= 1);
        assert ms[k] == init[k];
      }
      if exists k :: 0 <= k < |ms| && (captureCount == 0 || ms[k].lastCapturedIndex >= 1) {
        var k :| 0 <= k < |ms| && (captureCount == 0 || ms[k].lastCapturedIndex >= 1);
        if k < |init| { assert init[k] == ms[k]; }
      }
    }
  }

  /** Without capture groups, range k is group 0 of match k. */
  lemma {:induction false} EmittedWithoutGroups(h: Highlighter, ms: seq<RegexMatch>, cv: ColorVariation)
    ensures |EmittedFrom(h, 0, ms, cv)| == |ms|
    ensures forall k :: 0 <= k < |ms| ==> EmittedFrom(h, 0, ms, cv)[k] == RangeOf(h, Captured(ms[k], 0), cv)
    decreases |ms|
  {
    if ms != [] {
      var init := ms[..|ms| - 1];
      EmittedWithoutGroups(h, init, cv);
      forall k | 0 <= k < |init| ensures init[k] == ms[k] { }
    }
  }

  /** The shading every range of a rule carries. */
  predicate ShadedBy(h: Highlighter, r: HighlightedMatch) {
    if h.variateColors && h.highlightOnlyMatch then
      r.foreColor.Darkened? && r.foreColor.base == h.foreColor &&
      r.backColor == Darkened(h.backColor, r.foreColor.factor)
    else
      r.foreColor == Plain(h.foreColor) && r.backColor == Plain(h.backColor)
  }

  /** Every emitted range is painted with the rule's colours, darkened by one factor when the rule varies colours. */
  lemma {:induction false} EmittedShadedByRule(h: Highlighter, captureCount: nat, ms: seq<RegexMatch>, cv: ColorVariation)
    ensures forall j :: 0 <= j < |EmittedFrom(h, captureCount, ms, cv)| ==> ShadedBy(h, EmittedFrom(h, captureCount, ms, cv)[j])
    decreases |ms|
  {
    if ms != [] {
      var m := ms[|ms| - 1];
      EmittedShadedByRule(h, captureCount, ms[..|ms| - 1], cv);
      GroupRangesShape(h, m, cv, m.lastCapturedIndex);
      var tail := MatchRanges(h, captureCount, m, cv);
      assert forall j :: 0 <= j < |tail| ==> ShadedBy(h, tail[j]) by {
        if captureCount > 0 {
          forall j | 0 <= j < |tail| ensures ShadedBy(h, tail[j]) {
            assert tail[j] == RangeOf(h, Captured(m, j + 1), cv);
          }
        }
      }
    }
  }
}
