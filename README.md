# klogg highlighting engine, modelled in Dafny

klogg is a log viewer. Its highlighting engine decides how every displayed
line is coloured. A **highlighter** is one rule: a pattern (a regular
expression, or literal text that gets escaped), a case flag, foreground and
background colours, and two switches. "Highlight only match" colours just the
matched words rather than the whole line. "Variate colours" darkens each
matched word by an amount taken from a checksum of the word. A **highlighter
set** is an ordered, named list of rules. The **highlighter set collection**
holds every set, the ids of the active sets, nine quick colour labels, and
the combined set of active rules that matching uses. All of them are
persisted in the settings store.

This project models `src/ui/src/highlighterset.cpp`, module by module:

| file | module | models |
|---|---|---|
| `wrappers.dfy` | `Wrappers` | `Option` |
| `colors.dfy` | `Colors` | colours, their `#aarrggbb` name and the parse of a colour name |
| `highlighter.dfy` | `Highlighters` | one rule: pattern options, escaping, effective pattern, colour variation, range emission (`Highlighter::matchLine`) |
| `highlighterset.dfy` | `HighlighterSets` | a set of rules and the line-combination algorithm (`HighlighterSet::matchLine`) over an in-place range buffer |
| `quicklabels.dfy` | `QuickLabels` | the nine default quick labels and the normalisation to nine |
| `persistence.dfy` | `Persistence` | rule, set, quick-label and collection save and retrieve, over a map model of the settings store |
| `collection.dfy` | `Collections` | the collection as a class with in-place fields: activation, deactivation, the combined set, and loading |

Foreign results are inputs to the model:
- The regex engines' results for one line are given as a `LineScan`. It holds the line length, the prefilter vector of the multi-pattern matcher, and each rule's global matches with their capture spans.
- The CRC32 of a matched word and the seeded uniform draw are a `ColorVariation` pair of functions. The predicate `Sound` states that the draw stays within its bounds.
- `QColor::darker` stays symbolic: a range's colour is a `Shade`, either `Plain(c)` or `Darkened(c, factor)`.
- The settings store is a map from key to typed value (`Settings`). Groups and arrays are explicit datatypes (`StoredGroup`, `SetSlot`, `StoredCollection`, `Store`).
- The format version constants come from `highlighterset.h`, which is not part of this model. They are a `Versions` parameter.
- Freshly generated UUIDs are parameters (`freshId`).

`HighlighterSet::matchLine` is proved against a reverse fold, `Fold`. The
lemmas then derive from it what the loop means:
- The result kind is `LineMatch` when some contributing rule is whole-line. Otherwise it is `WordMatch` when some contributing rule is match-only, and `NoMatch` when no rule contributes.
- When a whole-line rule contributes, the final ranges start with one full-line range in the base colours of the earliest-declared contributing whole-line rule. That range is followed by the word ranges of the earlier-declared match-only rules, in descending declaration order.
- The buffer is not cleared on entry. Its earlier contents survive unless a whole-line rule fires.

Two behaviours of the code could be mistaken for simpler ones:
- A whole-line match does not always leave only the full-line range. The code keeps the word ranges of match-only rules declared before the winning rule, because they are visited after the clear. `HighlighterSets.EarlierWordRangesSurviveWholeLine` exhibits this.
- `Highlighter::matchLine` emits one range for every group from 1 to `lastCapturedIndex`, including groups that captured nothing. An uncaptured group gives start -1 and length 0. The code has no filter for empty groups.

## Model

| member | source | states |
|---|---|---|
| Colors.DigitValue | src/ui/src/highlighterset.cpp:349-350 | a character has a hex value exactly when it is a hex digit, and the value is below 16 |
| Colors.ParseByte | src/ui/src/highlighterset.cpp:349-350 | two characters parse as a byte exactly when both are hex digits |
| Colors.ParseByteName | src/ui/src/highlighterset.cpp:334-335 | the two-digit name of a byte parses back to that byte |
| Colors.HexArgbName | src/ui/src/highlighterset.cpp:334-335 | a colour's hex ARGB name is '#' followed by eight hexadecimal digits, the invalid colour named as opaque black |
| Colors.ParseColor | src/ui/src/highlighterset.cpp:349-350 | only '#rrggbb' and '#aarrggbb' parse to a colour, and the six-digit form is opaque |
| Colors.SavedColor | src/ui/src/highlighterset.cpp:334-335 | a valid colour is kept, and the invalid colour is saved as a valid one |
| Colors.ParseHexArgbName | src/ui/src/highlighterset.cpp:334-350 | parsing a saved colour name gives the colour back, with the invalid colour read back as opaque black |
| Highlighters.GetPatternOptions | src/ui/src/highlighterset.cpp:63-71 | Unicode properties are always on, and case-insensitivity is on exactly when asked for |
| Highlighters.NewHighlighter | src/ui/src/highlighterset.cpp:73-81 | a new rule has the given pattern, colours and match-only flag, and is case-insensitive exactly when asked |
| Highlighters.Escape | src/ui/src/highlighterset.cpp:180-181 | escaping adds at most one character per character |
| Highlighters.Unescape | src/ui/src/highlighterset.cpp:180-181 | reading an escaped pattern back never makes it longer; its meaning is fixed by UnescapeEscape |
| Highlighters.EscapeIsLiteral | src/ui/src/highlighterset.cpp:180-181 | an escaped text is made only of word characters and backslash pairs, so no metacharacter is left unescaped |
| Highlighters.UnescapeEscape | src/ui/src/highlighterset.cpp:180-181 | escaping loses nothing: unescaping the escaped text gives the text back |
| Highlighters.EscapeInjective | src/ui/src/highlighterset.cpp:180-181 | different literal texts never escape to the same pattern |
| Highlighters.EffectivePattern | src/ui/src/highlighterset.cpp:180-181 | a regex rule uses its pattern as it is; a literal rule uses exactly the escaped text, which has no unescaped metacharacter and unescapes to the text |
| Highlighters.ExpressionPattern | src/ui/src/highlighterset.cpp:177-186 | the prefilter pattern is the effective pattern, it is case-sensitive exactly when the rule does not ignore case, and it is always a prefilter |
| Highlighters.Compile | src/ui/src/highlighterset.cpp:188-195 | the compiled regex uses the effective pattern and the rule's pattern options |
| Highlighters.CompileAgreesWithExpressionPattern | src/ui/src/highlighterset.cpp:177-195 | the per-rule regex and the prefilter pattern agree on the pattern and on case-sensitivity |
| Highlighters.DarkerFactor | src/ui/src/highlighterset.cpp:168-172 | for a sound generator and a non-negative variance, the factor lies in [100 - variance, 100 + variance] |
| Highlighters.DrawInRange | src/ui/src/highlighterset.cpp:168-172 | a sound generator's draw lies within its bounds |
| Highlighters.VariateColors | src/ui/src/highlighterset.cpp:162-175 | the base colours are returned unchanged unless both variate-colours and match-only are set; otherwise both colours are darkened by one factor in [100 - variance, 100 + variance] |
| Highlighters.VariationDependsOnlyOnChecksum | src/ui/src/highlighterset.cpp:170-172 | two words with the same checksum are coloured the same |
| Highlighters.Captured | src/ui/src/highlighterset.cpp:210-216 | a group the match does not hold is reported at start -1 with length 0 |
| Highlighters.RangeOf | src/ui/src/highlighterset.cpp:212-216 | a range spans its capture and carries the colours varied on the captured text |
| Highlighters.GroupRanges | src/ui/src/highlighterset.cpp:211-218 | the ranges of groups 1..n in group order; its shape is stated by GroupRangesShape |
| Highlighters.MatchRanges | src/ui/src/highlighterset.cpp:209-226 | the ranges one match contributes: groups 1..lastCapturedIndex with groups, otherwise group 0 |
| Highlighters.EmittedFrom | src/ui/src/highlighterset.cpp:207-227 | the ranges of a sequence of matches, match after match; its size, emptiness and colours are stated by EmittedSize, EmittedNonEmptyIff and EmittedShadedByRule |
| Highlighters.Emitted | src/ui/src/highlighterset.cpp:197-230 | the ranges matchLine leaves for a global match; MatchLine is proved equal to it |
| Highlighters.EmitGroups | src/ui/src/highlighterset.cpp:211-218 | the inner loop appends exactly the ranges of groups 1..lastCapturedIndex to the output |
| Highlighters.MatchLine | src/ui/src/highlighterset.cpp:197-230 | the output is cleared, then holds the ranges of every global match in order, and the result is true exactly when the output is non-empty |
| Highlighters.GroupRangesShape | src/ui/src/highlighterset.cpp:208-217 | a pattern with groups emits one range per group 1..lastCapturedIndex, the i-th for group i |
| Highlighters.EmittedSize | src/ui/src/highlighterset.cpp:206-227 | the number of ranges is lastCapturedIndex summed over the matches with groups, or the number of matches without groups |
| Highlighters.EmittedNonEmptyIff | src/ui/src/highlighterset.cpp:206-229 | some range is emitted exactly when some match contributes one: any match without groups, or a match whose last captured index is positive |
| Highlighters.EmittedWithoutGroups | src/ui/src/highlighterset.cpp:218-225 | a pattern without groups emits exactly one group-0 range per match, in match order |
| Highlighters.EmittedShadedByRule | src/ui/src/highlighterset.cpp:212-224 | every emitted range is coloured from the rule's base colours, plain, or with its fore and back colours darkened by the same factor, a factor that each range derives from its own captured text |
| HighlighterSets.HighlightedMatchRanges.AddMatch | src/ui/src/highlighterset.cpp:310-311 | a range is appended to the buffer |
| HighlighterSets.HighlightedMatchRanges.AddMatches | src/ui/src/highlighterset.cpp:305 | ranges are appended to the buffer, in order |
| HighlighterSets.HighlightedMatchRanges.Clear | src/ui/src/highlighterset.cpp:309 | the buffer is emptied |
| HighlighterSets.CompilePatterns | src/ui/src/highlighterset.cpp:258-266 | one prefilter pattern per rule, in rule order, each the rule's expression pattern |
| HighlighterSets.Contributes | src/ui/src/highlighterset.cpp:292-299 | a rule takes part exactly when the prefilter accepted it and its own matchLine returned true; ContributesIff restates this in terms of the regex's matches |
| HighlighterSets.ContributesIff | src/ui/src/highlighterset.cpp:292-299 | a rule takes part exactly when the prefilter accepted it and some match of its regex yields a range: any match when it has no groups, one that captured a group otherwise |
| HighlighterSets.LineRuleContributes | src/ui/src/highlighterset.cpp:307-312 | a contributing rule that is not match-only: the branch that replaces the buffer with the full-line range |
| HighlighterSets.WordRuleContributes | src/ui/src/highlighterset.cpp:301-306 | a contributing match-only rule: the branch that appends its own ranges |
| HighlighterSets.WholeLine | src/ui/src/highlighterset.cpp:310-311 | the whole-line range starts at column 0, spans the line and has the rule's plain colours |
| HighlighterSets.Step | src/ui/src/highlighterset.cpp:290-313 | a rule that does not contribute changes nothing; a contributing rule leaves a match; a LineMatch is never downgraded |
| HighlighterSets.Fold | src/ui/src/highlighterset.cpp:290-313 | the outcome after visiting the rules from last to first: a line match already in the outcome is never downgraded, and a result still NoMatch means nothing was touched; MatchLine is proved equal to it and MatchLineOutcome characterises it |
| HighlighterSets.FirstLineRule | src/ui/src/highlighterset.cpp:288-312 | the earliest contributing whole-line rule from a position on, or the end when there is none |
| HighlighterSets.MatchLine | src/ui/src/highlighterset.cpp:268-316 | an empty set gives NoMatch and leaves the buffer alone; otherwise the kind and the buffer are the reverse fold of the rules over the buffer's old contents |
| HighlighterSets.FoldWithoutLineRules | src/ui/src/highlighterset.cpp:288-306 | over rules none of which contributes a whole line, the buffer gains the word ranges of the rules in descending order, and the kind becomes WordMatch exactly when one contributes |
| HighlighterSets.MatchLineOutcome | src/ui/src/highlighterset.cpp:288-315 | the complete result: without a contributing whole-line rule, the old contents followed by all word ranges in descending order; with one, its whole-line range followed by the word ranges of earlier rules |
| HighlighterSets.EarliestWholeLineRuleWins | src/ui/src/highlighterset.cpp:307-312 | the earliest-declared contributing whole-line rule decides the colours, and old contents and later rules' ranges are gone |
| HighlighterSets.MatchTypeIff | src/ui/src/highlighterset.cpp:288-315 | LineMatch exactly when a whole-line rule contributes; WordMatch exactly when none does and a match-only rule does; NoMatch exactly when no rule contributes |
| HighlighterSets.EarlierWordRangesSurviveWholeLine | src/ui/src/highlighterset.cpp:301-312 | a match-only rule declared before a whole-line rule still adds its ranges after the whole-line range |
| HighlighterSets.FoldRangesWithoutLineRules | src/ui/src/highlighterset.cpp:288-306 | the ranges half of FoldWithoutLineRules: the buffer gains exactly the word ranges, in descending rule order |
| HighlighterSets.StepWithoutLineRule | src/ui/src/highlighterset.cpp:290-306 | at a rule that does not contribute a whole line, one iteration appends that rule's ranges when it is a contributing match-only rule and nothing otherwise |
| HighlighterSets.FoldTypeWithoutLineRules | src/ui/src/highlighterset.cpp:288-306 | the result-kind half of FoldWithoutLineRules: a LineMatch stays, otherwise WordMatch exactly when some word rule contributes |
| HighlighterSets.FoldDependsOnlyOnContributions | src/ui/src/highlighterset.cpp:290-299 | a rule whose prefilter flag is false, or whose own match finds nothing, adds nothing: only the contributing rules matter |
| HighlighterSets.PrefilterOnlyPrunes | src/ui/src/highlighterset.cpp:290-293 | a prefilter that never rejects a rule with ranges gives the same result as one that accepts every rule |
| QuickLabels.NatToString | src/ui/src/highlighterset.cpp:581 | the decimal numeral of n: non-empty digits whose decimal value is n, a single digit below 10 |
| QuickLabels.DefaultForeColors1To4 | src/ui/src/highlighterset.cpp:595-606 | the foreground colours of default labels 1 to 4 are the ones the code spells in hex |
| QuickLabels.DefaultForeColors5To8 | src/ui/src/highlighterset.cpp:607-618 | the foreground colours of default labels 5 to 8 are the ones the code spells in hex |
| QuickLabels.DefaultBackColors1To4 | src/ui/src/highlighterset.cpp:595-606 | the background colours of default labels 1 to 4 are the ones the code spells in hex |
| QuickLabels.DefaultBackColors5To8 | src/ui/src/highlighterset.cpp:607-618 | the background colours of default labels 5 to 8 are the ones the code spells in hex |
| QuickLabels.DefaultLabels | src/ui/src/highlighterset.cpp:593-619 | the built-in list: nine labels, all in the cycle, the ninth with an invalid foreground on Qt's gray; names and the other colours are pinned by DefaultLabelNames and the DefaultForeColors/DefaultBackColors lemmas |
| QuickLabels.DefaultLabelNames | src/ui/src/highlighterset.cpp:594-619 | there are nine default labels, the i-th named "Color label i+1" |
| QuickLabels.NormalizedLabels | src/ui/src/highlighterset.cpp:621-631 | the stored labels padded with the defaults of the missing slots, or cut to nine; its shape is stated by NormalizedLabelsShape |
| QuickLabels.NormalizedLabelsShape | src/ui/src/highlighterset.cpp:621-631 | after normalisation there are exactly nine labels: the stored ones first, then the defaults from the stored count on; extras are cut |
| Persistence.BoolAt | src/ui/src/highlighterset.cpp:344-347 | a missing key reads as the default, and a stored boolean as itself |
| Persistence.IntAt | src/ui/src/highlighterset.cpp:348 | a missing key reads as the default, and a stored integer as itself |
| Persistence.StringAt | src/ui/src/highlighterset.cpp:342-343 | a missing key reads as the default, and a stored string as itself |
| Persistence.StringListAt | src/ui/src/highlighterset.cpp:561 | a missing key reads as the empty list, and a stored list as itself |
| Persistence.SaveHighlighter | src/ui/src/highlighterset.cpp:322-336 | saving writes the eight rule keys and leaves every other key alone |
| Persistence.SavedRuleKeys | src/ui/src/highlighterset.cpp:326-335 | each rule key holds its field: the pattern, the case flag, the three switches, the variance and the colours' hex ARGB names |
| Persistence.RetrieveHighlighter | src/ui/src/highlighterset.cpp:338-351 | each missing key reads as its default: empty pattern, case-sensitive, regex, not match-only, no variation, variance 15, invalid colours; case-insensitivity follows the stored flag |
| Persistence.RetrieveHighlighterDefaults | src/ui/src/highlighterset.cpp:338-351 | from an empty group: empty pattern, case-sensitive, regex, not match-only, no variation, variance 15, invalid colours |
| Persistence.HighlighterRoundTrip | src/ui/src/highlighterset.cpp:322-351 | retrieving a saved rule gives it back, with invalid colours read back as opaque black |
| Persistence.HasVersion | src/ui/src/highlighterset.cpp:377 | a group counts as present exactly when it holds a "version" key, the `settings.contains("<group>/version")` test also used at lines 401 and 549 |
| Persistence.SaveSet | src/ui/src/highlighterset.cpp:353-369 | saving a set writes a HighlighterSet group with one entry per rule and leaves a FilterSet group alone |
| Persistence.RetrieveRules | src/ui/src/highlighterset.cpp:384-391 | one rule per array entry, in order |
| Persistence.RetrieveGroup | src/ui/src/highlighterset.cpp:380-394 | a group with a newer version than the code knows gives the prior name and id and no rules |
| Persistence.RetrieveSet | src/ui/src/highlighterset.cpp:371-420 | a legacy FilterSet group is migrated: removed and the set saved as a HighlighterSet group; otherwise the store is untouched; with neither group present there are no rules |
| Persistence.SavedSet | src/ui/src/highlighterset.cpp:353-369 | the saved form keeps the name, id and rule count, each rule in its saved form |
| Persistence.SavedSetIdempotent | src/ui/src/highlighterset.cpp:322-369 | saving a set that was read back changes nothing further |
| Persistence.SetRoundTrip | src/ui/src/highlighterset.cpp:353-420 | retrieving a saved set gives it back in saved form and leaves the store as it is |
| Persistence.FilterSetMigrationIdempotent | src/ui/src/highlighterset.cpp:375-400 | after a migration, reading again gives the same set and changes the store no further |
| Persistence.RetrieveQuickLabel | src/ui/src/highlighterset.cpp:570-584 | a missing name reads as "Color label i+1", and a missing cycle flag as true |
| Persistence.SaveQuickLabel | src/ui/src/highlighterset.cpp:530-536 | a quick label is saved under exactly the four keys name, fore_colour, back_colour and cycle, with its name and cycle flag |
| Persistence.QuickLabelRoundTrip | src/ui/src/highlighterset.cpp:570-584 | retrieving a saved quick label gives it back, with invalid colours read back as opaque black |
| Persistence.SaveCollection | src/ui/src/highlighterset.cpp:510-540 | the group holds the active list, one slot per set and one entry per quick label |
| Persistence.CollectionReadable | src/ui/src/highlighterset.cpp:549-551 | the collection group is read only when it has a version and that version is not newer than the code's |
| Persistence.RetrieveSets | src/ui/src/highlighterset.cpp:551-559 | one set per slot of the sets array |
| Persistence.MigratedSlots | src/ui/src/highlighterset.cpp:551-559 | one slot left behind per slot read |
| Persistence.RetrieveQuickLabels | src/ui/src/highlighterset.cpp:570-587 | one quick label per entry of the quick array |
| Persistence.CollectionRoundTrip | src/ui/src/highlighterset.cpp:510-587 | reading a saved collection gives its sets, active list and quick labels back in saved form, with nothing to migrate |
| Collections.HasSetIn | src/ui/src/highlighterset.cpp:487-491 | true exactly when some set has the id |
| Collections.HasSetByNameIn | src/ui/src/highlighterset.cpp:493-497 | true exactly when some set has the name |
| Collections.CombinedAppend | src/ui/src/highlighterset.cpp:442-454 | the combined rules follow the order of the sets |
| Collections.CombinedMembers | src/ui/src/highlighterset.cpp:442-454 | a rule is combined exactly when some active set holds it |
| Collections.CombinedIgnoresActivationOrder | src/ui/src/highlighterset.cpp:446-451 | only which ids are active matters, not the order of activation |
| Collections.CombinedWithoutActive | src/ui/src/highlighterset.cpp:480-485 | with no active set there are no combined rules |
| Collections.Combined | src/ui/src/highlighterset.cpp:442-454 | the rules of the active sets in set order; stated by CombinedAppend, CombinedMembers and CombinedIgnoresActivationOrder |
| Collections.Activate | src/ui/src/highlighterset.cpp:461-471 | the active list is either unchanged or has the id appended |
| Collections.ActivateMembers | src/ui/src/highlighterset.cpp:461-471 | activation never creates a duplicate, and after it an id is active exactly when it was before or it is the known id just activated |
| Collections.KeepKnown | src/ui/src/highlighterset.cpp:431-433 | pruning never lengthens the active list; its members are stated by KeepKnownMembers |
| Collections.KeepKnownMembers | src/ui/src/highlighterset.cpp:431-433 | after pruning, an id is active exactly when it was active and some new set has it |
| Collections.KeepKnownNoDuplicates | src/ui/src/highlighterset.cpp:431-433 | pruning creates no duplicate |
| Collections.KeepKnownAllKnown | src/ui/src/highlighterset.cpp:431-433 | pruning keeps a list of known ids as it is |
| Collections.RemoveAll | src/ui/src/highlighterset.cpp:473-478 | removal never lengthens the active list; its members are stated by RemoveAllMembers |
| Collections.RemoveAllMembers | src/ui/src/highlighterset.cpp:473-478 | after removal an id is active exactly when it was and it is not the removed one; an inactive id changes nothing |
| Collections.RemoveAllNoDuplicates | src/ui/src/highlighterset.cpp:473-478 | removal creates no duplicate |
| Collections.ImportLegacyAsWritten | src/ui/src/highlighterset.cpp:637-638 | the import as written: the set is appended, and activation looks the id up among the sets loaded before it |
| Collections.LegacyImportNotActivatedAsWritten | src/ui/src/highlighterset.cpp:633-641 | as written, an imported legacy set whose id the collection lacks is added but left inactive |
| Collections.LegacyImportExample | src/ui/src/highlighterset.cpp:633-641 | as written, an empty collection importing set "x" holds it with no active set |
| Collections.ImportLegacy | src/ui/src/highlighterset.cpp:637-638 | the import as intended: the set is appended, then activated among the sets that include it |
| Collections.LegacyImportActivates | src/ui/src/highlighterset.cpp:633-641 | with the import appending first, the legacy set is active, its rules are combined and no id is duplicated |
| Collections.ActiveAfterGroup | src/ui/src/highlighterset.cpp:561-568 | without an old "current" set the active list is the stored one; otherwise that set is activated |
| Collections.KeysAfterGroup | src/ui/src/highlighterset.cpp:563-567 | "current" is gone from the group and "active_sets" holds the active list after the group is read |
| Collections.LoadSets | src/ui/src/highlighterset.cpp:551-559 | the loop over the sets array reads every slot's set and leaves every slot migrated |
| Collections.LoadQuickLabels | src/ui/src/highlighterset.cpp:570-587 | the loop over the quick array reads every quick label |
| Collections.HighlighterSetCollection.HasSet | src/ui/src/highlighterset.cpp:487-491 | true exactly when some set of the collection has the id |
| Collections.HighlighterSetCollection.HasSetByName | src/ui/src/highlighterset.cpp:493-497 | true exactly when some set of the collection has the name |
| Collections.HighlighterSetCollection.UpdateCombinedSet | src/ui/src/highlighterset.cpp:442-454 | the combined rules are rebuilt as the rules of the active sets in set order; nothing else changes |
| Collections.HighlighterSetCollection.SetHighlighterSets | src/ui/src/highlighterset.cpp:427-435 | the sets are replaced, ids no new set has are dropped, and the combined rules are rebuilt |
| Collections.HighlighterSetCollection.ActivateSet | src/ui/src/highlighterset.cpp:461-471 | an unknown or already active id changes nothing; otherwise the id is appended and the combined rules are rebuilt; no duplicate is created |
| Collections.HighlighterSetCollection.DeactivateSet | src/ui/src/highlighterset.cpp:473-478 | every occurrence of the id is removed and the combined rules are rebuilt |
| Collections.HighlighterSetCollection.DeactivateAll | src/ui/src/highlighterset.cpp:480-485 | no set is active and there are no combined rules |
| Collections.HighlighterSetCollection.NormalizeQuickHighlighters | src/ui/src/highlighterset.cpp:621-631 | the quick labels are padded with the missing defaults or cut, to exactly nine |
| Collections.HighlighterSetCollection.ImportLegacySet | src/ui/src/highlighterset.cpp:637-638 | the corrected import: the legacy set is appended and then activated, and the combined rules are rebuilt unless its id was already active |
| Collections.HighlighterSetCollection.RetrieveCollectionGroup | src/ui/src/highlighterset.cpp:546-587 | the sets, active list and quick labels are read from the group; an old "current" set is activated, rebuilding the combined rules when it is known and not yet active; "current" is removed from the store |
| Collections.HighlighterSetCollection.RetrieveFromStorage | src/ui/src/highlighterset.cpp:542-641 | the whole load as written: the readable group's contents, nine quick labels, a legacy set appended after an activation that looks it up too early, the combined rules up to date, and the store left with the group migrated, or rewritten whole after an import, and the legacy group removed |

## Left out

- The regex engines (`QRegularExpression`, `MultiRegularExpression`, `globalMatch`, `optimize`) are not modelled. Their results for a line are inputs.
- The UTF-16 to UTF-8 transcoding before the prefilter is not modelled. The line length is a number of UTF-16 code units, given as an input.
- CRC32, `std::minstd_rand0` and `std::uniform_int_distribution` are not modelled. Together they are one function parameter, with only its range bound assumed.
- `QColor::darker` is not modelled as arithmetic. A darkened colour stays symbolic.
- Highlighters.DarkerFactor: the range is stated only for a non-negative variance. For a negative variance the distribution's bounds are reversed, which the C++ library leaves undefined.
- QColor name parsing is modelled only for the "#rrggbb" and "#aarrggbb" forms. Named colours, "#rgb" and the other forms Qt accepts read as the invalid colour in this model.
- Highlighters.Escape: QRegularExpression::escape is modelled on characters. Code units outside the basic plane and surrogate pairs are not treated specially.
- QVariant conversions between types are not modelled. A value stored under another type reads as that type's null value.
- QSettings group, array and `sync` mechanics are not modelled. Their effect is explicit datatypes for groups and arrays.
- The default constructor of `HighlighterSet` is declared in `highlighterset.h`, which is not part of this model. The model assumes it leaves the name, the id and the rules empty (`Collections.DefaultSet`).
- The version constants live in `highlighterset.h`, which is not part of this model. They are a parameter.
- The member initialisers of `Highlighter` (`useRegex_`, `variateColors_`, `colorVariance_`) are declared in `highlighterset.h`, which is not part of this model. `Highlighters.NewHighlighter` takes them as parameters, because the constructor at lines 73-81 does not set them.
- UUID generation is not modelled. Fresh ids are parameters.
- The compiled-regex caches (`optimizedRegexp_`, `compiledExpression_`) are not modelled. The model always compiles from the current rule.
- `QApplication::tr` translation and logging are not modelled.
- Trivial getters and setters, `setQuickHighlighters`, `currentActiveSet` and `activeSetIds` are not modelled. Each reads or writes one field.
- `createNewSet` and the named `HighlighterSet` constructor are not modelled. They build an empty set with the given name and a freshly generated UUID as its id, and UUID generation is outside the model.
- `src/app/kloggapp.cpp` (window and session plumbing, IPC, UI) is not part of this model.
- Collections.HighlighterSetCollection.RetrieveFromStorage follows the import order as written (see Findings). The corrected order is `Collections.ImportLegacy`, with the method `Collections.HighlighterSetCollection.ImportLegacySet`.

## Findings

| source | as written | input that shows it | evidently intended | confidence | as-written member | corrected member |
|---|---|---|---|---|---|---|
| src/ui/src/highlighterset.cpp:635-641 | when a pre-collection highlighter set is imported, `activateSet` is called before the set is appended, so `hasSet` fails and the activation is skipped | an empty collection and a legacy set with id "x" and one rule: afterwards the collection holds the set, but no set is active and there are no combined rules | the imported set is appended and then activated, because before collections existed the single set was always in use | not executed | Collections.LegacyImportNotActivatedAsWritten | Collections.LegacyImportActivates |

