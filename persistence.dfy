/**
 * Saving and loading rules, rule sets and quick labels.
 *
 * The settings store is modelled as values: a group's keys are a map from
 * key to a typed value, and a group's array is a sequence of such maps. A
 * value read with the wrong type reads as the null of the type asked for
 * (false, 0, "", []); Qt's conversions between variant types are not
 * modelled.
 */
module Persistence {
  import opened Wrappers
  import opened Colors
  import opened Highlighters
  import opened HighlighterSets
  import opened QuickLabels

  datatype Value = Str(s: string) | Bool(b: bool) | Int(i: int) | StrList(l: seq<string>)

  type Settings = map<string, Value>

  /** `value(key, default).toBool()`. */
  function BoolAt(s: Settings, key: string, default: bool): (r: bool)
    ensures key !in s ==> r == default
    ensures key in s && s[key].Bool? ==> r == s[key].b
  {
    if key !in s then default else match s[key] case Bool(b) => b case _ => false
  }

  /** `value(key, default).toInt()`. */
  function IntAt(s: Settings, key: string, default: int): (r: int)
    ensures key !in s ==> r == default
    ensures key in s && s[key].Int? ==> r == s[key].i
  {
    if key !in s then default else match s[key] case Int(i) => i case _ => 0
  }

  /** `value(key, default).toString()`. */
  function StringAt(s: Settings, key: string, default: string): (r: string)
    ensures key !in s ==> r == default
    ensures key in s && s[key].Str? ==> r == s[key].s
  {
    if key !in s then default else match s[key] case Str(t) => t case _ => ""
  }

  /** `value(key).toStringList()`. */
  function StringListAt(s: Settings, key: string): (r: seq<string>)
    ensures key !in s ==> r == []
    ensures key in s && s[key].StrList? ==> r == s[key].l
  {
    if key !in s then [] else match s[key] case StrList(l) => l case _ => []
  }

  // ---------------------------------------------------------------------
  // Highlighter::saveToStorage / retrieveFromStorage

  /** The keys a rule is saved under. */
  const RuleKeys: set<string> := {"regexp", "ignore_case", "match_only", "use_regex",
                                  "variate_colors", "color_variance", "fore_colour", "back_colour"}

  /** `Highlighter::saveToStorage`: the eight keys of a rule, colours as "#aarrggbb"; other keys are kept. */
  function SaveHighlighter(h: Highlighter, s: Settings): (r: Settings)
    ensures r.Keys == s.Keys + RuleKeys
    ensures forall k :: k in s && k !in RuleKeys ==> r[k] == s[k]
  {
    s["regexp" := Str(h.pattern)]
     ["ignore_case" := Bool(h.ignoreCase)]
     ["match_only" := Bool(h.highlightOnlyMatch)]
     ["use_regex" := Bool(h.useRegex)]
     ["variate_colors" := Bool(h.variateColors)]
     ["color_variance" := Int(h.colorVariance)]
     ["fore_colour" := Str(HexArgbName(h.foreColor))]
     ["back_colour" := Str(HexArgbName(h.backColor))]
  }

  /** Each rule key holds its field: the pattern, the flags, the variance and the colours' hex ARGB names. */
  lemma SavedRuleKeys(h: Highlighter, s: Settings)
    ensures var r := SaveHighlighter(h, s);
            && r["regexp"] == Str(h.pattern) && r["ignore_case"] == Bool(h.ignoreCase)
            && r["match_only"] == Bool(h.highlightOnlyMatch) && r["use_regex"] == Bool(h.useRegex)
            && r["variate_colors"] == Bool(h.variateColors) && r["color_variance"] == Int(h.colorVariance)
            && r["fore_colour"] == Str(HexArgbName(h.foreColor)) && r["back_colour"] == Str(HexArgbName(h.backColor))
  {
  }

  /** `Highlighter::retrieveFromStorage`: every field is read, with its default when the key is absent. */
  function RetrieveHighlighter(s: Settings): (h: Highlighter)
    ensures CaseInsensitive in GetPatternOptions(h.ignoreCase) <==> BoolAt(s, "ignore_case", false)
    ensures "regexp" !in s ==> h.pattern == ""
    ensures "use_regex" !in s ==> h.useRegex
    ensures "match_only" !in s ==> !h.highlightOnlyMatch
    ensures "variate_colors" !in s ==> !h.variateColors
    ensures "color_variance" !in s ==> h.colorVariance == 15
    ensures "fore_colour" !in s ==> h.foreColor == Invalid
    ensures "back_colour" !in s ==> h.backColor == Invalid
  {
    Highlighter(
      pattern := StringAt(s, "regexp", ""),
      ignoreCase := BoolAt(s, "ignore_case", false),
      useRegex := BoolAt(s, "use_regex", true),
      highlightOnlyMatch := BoolAt(s, "match_only", false),
      variateColors := BoolAt(s, "variate_colors", false),
      colorVariance := IntAt(s, "color_variance", 15),
      foreColor := ParseColor(StringAt(s, "fore_colour", "")),
      backColor := ParseColor(StringAt(s, "back_colour", "")))
  }

  /** A rule as it reads back once saved: an invalid colour becomes opaque black. */
  function SavedHighlighter(h: Highlighter): (r: Highlighter)
  {
    h.(foreColor := SavedColor(h.foreColor), backColor := SavedColor(h.backColor))
  }

  /** An empty group reads as a case-sensitive, whole-line regex rule with variance 15 and invalid colours. */
  lemma RetrieveHighlighterDefaults()
    ensures RetrieveHighlighter(map[]) == Highlighter("", false, true, false, false, 15, Invalid, Invalid)
  {
  }

  /** Saving a rule and reading it back gives the rule, up to the invalid-colour normalisation. */
  lemma HighlighterRoundTrip(h: Highlighter, s: Settings)
    ensures RetrieveHighlighter(SaveHighlighter(h, s)) == SavedHighlighter(h)
  {
    SavedRuleKeys(h, s);
    ParseHexArgbName(h.foreColor);
    ParseHexArgbName(h.backColor);
  }

  // ---------------------------------------------------------------------
  // HighlighterSet::saveToStorage / retrieveFromStorage

  /** A settings group: its keys, and the elements of the one array this code keeps in it. */
  datatype StoredGroup = StoredGroup(keys: Settings, items: seq<Settings>)

  /**
   * The place a rule set is stored: a legacy "FilterSet" group (rules in
   * its "filters" array) and a "HighlighterSet" group (rules in its
   * "highlighters" array); `None` is an absent group.
   */
  datatype SetSlot = SetSlot(filterSet: Option<StoredGroup>, highlighterSet: Option<StoredGroup>)

  /** The format versions, defined in highlighterset.h. */
  datatype Versions = Versions(filterSet: int, highlighterSet: int, collection: int)

  /** `settings.contains("<group>/version")`. */
  predicate HasVersion(g: Option<StoredGroup>) {
    g.Some? && "version" in g.value.keys
  }

  /** `HighlighterSet::saveToStorage`: version, name and id into the group, the rules replacing its array. */
  function SaveSet(hs: HighlighterSet, slot: SetSlot, v: Versions): (r: SetSlot)
    ensures r.filterSet == slot.filterSet
    ensures r.highlighterSet.Some? && |r.highlighterSet.value.items| == |hs.highlighterList|
  {
    var keys := if slot.highlighterSet.Some? then slot.highlighterSet.value.keys else map[];
    slot.(highlighterSet := Some(StoredGroup(
      keys["version" := Int(v.highlighterSet)]["name" := Str(hs.name)]["id" := Str(hs.id)],
      seq(|hs.highlighterList|, i requires 0 <= i < |hs.highlighterList| => SaveHighlighter(hs.highlighterList[i], map[])))))
  }

  /** The rules of one group's array. */
  function RetrieveRules(g: StoredGroup): (r: seq<Highlighter>)
    ensures |r| == |g.items|
    ensures forall i :: 0 <= i < |r| ==> r[i] == RetrieveHighlighter(g.items[i])
  {
    seq(|g.items|, i requires 0 <= i < |g.items| => RetrieveHighlighter(g.items[i]))
  }

  /** One versioned group read into `prior`: the whole block if its version is supported, else no rules and `prior`'s name and id. */
  function RetrieveGroup(g: StoredGroup, maxVersion: int, prior: HighlighterSet, freshId: string): (r: HighlighterSet)
    ensures IntAt(g.keys, "version", 0) > maxVersion ==> r == prior.(highlighterList := [])
  {
    if IntAt(g.keys, "version", 0) <= maxVersion then
      HighlighterSet(StringAt(g.keys, "name", "Highlighters set"), StringAt(g.keys, "id", freshId), RetrieveRules(g))
    else
      prior.(highlighterList := [])
  }

  /**
   * `HighlighterSet::retrieveFromStorage` on a set whose fields are `prior`;
   * `freshId` is what `generateIdFromUuid` would return. A legacy
   * "FilterSet" group wins, and is migrated: it is removed and the set read
   * from it is saved in the current form. Returns the set and the slot as
   * the store holds it afterwards.
   */
  function RetrieveSet(slot: SetSlot, prior: HighlighterSet, freshId: string, v: Versions): (r: (HighlighterSet, SetSlot))
    ensures HasVersion(slot.filterSet) ==> r.1 == SaveSet(r.0, slot.(filterSet := None), v)
    ensures !HasVersion(slot.filterSet) ==> r.1 == slot
    ensures !HasVersion(slot.filterSet) && !HasVersion(slot.highlighterSet) ==> r.0 == prior.(highlighterList := [])
  {
    if HasVersion(slot.filterSet) then
      var loaded := RetrieveGroup(slot.filterSet.value, v.filterSet, prior, freshId);
      (loaded, SaveSet(loaded, slot.(filterSet := None), v))
    else if HasVersion(slot.highlighterSet) then
      (RetrieveGroup(slot.highlighterSet.value, v.highlighterSet, prior, freshId), slot)
    else
      (prior.(highlighterList := []), slot)
  }

  /** A set as it reads back once saved. */
  function SavedSet(hs: HighlighterSet): (r: HighlighterSet)
    ensures r.name == hs.name && r.id == hs.id && |r.highlighterList| == |hs.highlighterList|
    ensures forall i :: 0 <= i < |r.highlighterList| ==> r.highlighterList[i] == SavedHighlighter(hs.highlighterList[i])
  {
    hs.(highlighterList := seq(|hs.highlighterList|, i requires 0 <= i < |hs.highlighterList| => SavedHighlighter(hs.highlighterList[i])))
  }

  lemma SavedSetIdempotent(hs: HighlighterSet)
    ensures SavedSet(SavedSet(hs)) == SavedSet(hs)
  {
  }

  /** Saving a set into a slot with no legacy group and reading it back gives the set, its name and id included. */
  lemma SetRoundTrip(hs: HighlighterSet, g: Option<StoredGroup>, prior: HighlighterSet, freshId: string, v: Versions)
    ensures RetrieveSet(SaveSet(hs, SetSlot(None, g), v), prior, freshId, v) ==
            (SavedSet(hs), SaveSet(hs, SetSlot(None, g), v))
  {
    var slot := SaveSet(hs, SetSlot(None, g), v);
    var loaded := RetrieveSet(slot, prior, freshId, v).0;
    var rules := RetrieveRules(slot.highlighterSet.value);
    forall i | 0 <= i < |hs.highlighterList|
      ensures rules[i] == SavedHighlighter(hs.highlighterList[i])
    {
      HighlighterRoundTrip(hs.highlighterList[i], map[]);
    }
    assert loaded.highlighterList == SavedSet(hs).highlighterList;
  }

  /**
   * Migrating a legacy "FilterSet" group is idempotent: loading the slot it
   * leaves behind gives the migrated set again (up to the invalid-colour
   * normalisation), whatever the set's prior fields and fresh id, and
   * rewrites nothing.
   */
  lemma FilterSetMigrationIdempotent(slot: SetSlot, prior: HighlighterSet, freshId: string,
                                     prior2: HighlighterSet, freshId2: string, v: Versions)
    requires HasVersion(slot.filterSet)
    ensures var (first, migrated) := RetrieveSet(slot, prior, freshId, v);
            && migrated.filterSet == None
            && RetrieveSet(migrated, prior2, freshId2, v) == (SavedSet(first), migrated)
  {
    var (first, migrated) := RetrieveSet(slot, prior, freshId, v);
    SetRoundTrip(first, slot.highlighterSet, prior2, freshId2, v);
  }

  // ---------------------------------------------------------------------
  // Quick labels

  /** One element of the "quick" array, read as slot `i`: name defaults to "Color label i+1", cycling to true. */
  function RetrieveQuickLabel(s: Settings, i: nat): (q: QuickHighlighter)
    ensures "name" !in s ==> q.name == "Color label " + NatToString(i + 1)
    ensures "cycle" !in s ==> q.useInCycle
  {
    QuickHighlighter(
      StringAt(s, "name", "Color label " + NatToString(i + 1)),
      ParseColor(StringAt(s, "fore_colour", "")),
      ParseColor(StringAt(s, "back_colour", "")),
      BoolAt(s, "cycle", true))
  }

  /** One element of the "quick" array as `saveToStorage` writes it: four keys, colours as "#aarrggbb". */
  function SaveQuickLabel(q: QuickHighlighter): (r: Settings)
    ensures r.Keys == {"name", "fore_colour", "back_colour", "cycle"}
    ensures r["name"] == Str(q.name) && r["cycle"] == Bool(q.useInCycle)
  {
    map["name" := Str(q.name), "fore_colour" := Str(HexArgbName(q.foreColor)),
        "back_colour" := Str(HexArgbName(q.backColor)), "cycle" := Bool(q.useInCycle)]
  }

  /** A saved quick label reads back as itself, up to the invalid-colour normalisation, in any slot. */
  lemma QuickLabelRoundTrip(q: QuickHighlighter, i: nat)
    ensures RetrieveQuickLabel(SaveQuickLabel(q), i) ==
            q.(foreColor := SavedColor(q.foreColor), backColor := SavedColor(q.backColor))
  {
    ParseHexArgbName(q.foreColor);
    ParseHexArgbName(q.backColor);
  }

  // ---------------------------------------------------------------------
  // HighlighterSetCollection storage

  /** The "HighlighterSetCollection" group: its keys, its "sets" array (one slot each) and its "quick" array. */
  datatype StoredCollection = StoredCollection(keys: Settings, sets: seq<SetSlot>, quick: seq<Settings>)

  /** The whole store: the collection group, and the root-level place of a pre-collection single set. */
  datatype Store = Store(collection: Option<StoredCollection>, legacy: SetSlot)

  /** `HighlighterSetCollection::saveToStorage`. */
  function SaveCollection(sets: seq<HighlighterSet>, active: seq<string>, quick: seq<QuickHighlighter>,
                          existing: Option<StoredCollection>, v: Versions): (r: StoredCollection)
    ensures StringListAt(r.keys, "active_sets") == active
    ensures |r.sets| == |sets| && |r.quick| == |quick|
  {
    var keys := if existing.Some? then existing.value.keys else map[];
    StoredCollection(
      keys["version" := Int(v.collection)]["active_sets" := StrList(active)],
      seq(|sets|, i requires 0 <= i < |sets| => SaveSet(sets[i], SetSlot(None, None), v)),
      seq(|quick|, i requires 0 <= i < |quick| => SaveQuickLabel(quick[i])))
  }

  /** The collection group can be read: it has a version, and not a newer one than this code knows. */
  predicate CollectionReadable(sc: StoredCollection, v: Versions) {
    "version" in sc.keys && IntAt(sc.keys, "version", 0) <= v.collection
  }

  /** The sets of the "sets" array, slot `i` read into a default-constructed set with fresh id `freshId(i)`. */
  function RetrieveSets(sc: StoredCollection, blank: HighlighterSet, freshId: nat -> string, v: Versions): (r: seq<HighlighterSet>)
    ensures |r| == |sc.sets|
  {
    seq(|sc.sets|, i requires 0 <= i < |sc.sets| => RetrieveSet(sc.sets[i], blank, freshId(i), v).0)
  }

  /** The "sets" array as it is left behind: every legacy group in it migrated. */
  function MigratedSlots(sc: StoredCollection, blank: HighlighterSet, freshId: nat -> string, v: Versions): (r: seq<SetSlot>)
    ensures |r| == |sc.sets|
  {
    seq(|sc.sets|, i requires 0 <= i < |sc.sets| => RetrieveSet(sc.sets[i], blank, freshId(i), v).1)
  }

  /** The quick labels of the "quick" array, in order. */
  function RetrieveQuickLabels(sc: StoredCollection): (r: seq<QuickHighlighter>)
    ensures |r| == |sc.quick|
  {
    seq(|sc.quick|, i requires 0 <= i < |sc.quick| => RetrieveQuickLabel(sc.quick[i], i))
  }

  /**
   * Saving a collection and reading the group back gives its sets, its
   * active list and its quick labels again (up to the invalid-colour
   * normalisation), with nothing left to migrate.
   */
  lemma CollectionRoundTrip(sets: seq<HighlighterSet>, active: seq<string>, quick: seq<QuickHighlighter>,
                            existing: Option<StoredCollection>, blank: HighlighterSet, freshId: nat -> string, v: Versions)
    ensures var sc := SaveCollection(sets, active, quick, existing, v);
            && CollectionReadable(sc, v)
            && RetrieveSets(sc, blank, freshId, v) == seq(|sets|, i requires 0 <= i < |sets| => SavedSet(sets[i]))
            && MigratedSlots(sc, blank, freshId, v) == sc.sets
            && StringListAt(sc.keys, "active_sets") == active
            && RetrieveQuickLabels(sc) ==
                 seq(|quick|, i requires 0 <= i < |quick| =>
                   quick[i].(foreColor := SavedColor(quick[i].foreColor), backColor := SavedColor(quick[i].backColor)))
  {
    var sc := SaveCollection(sets, active, quick, existing, v);
    forall i | 0 <= i < |sets|
      ensures RetrieveSet(sc.sets[i], blank, freshId(i), v) == (SavedSet(sets[i]), sc.sets[i])
    {
      SetRoundTrip(sets[i], None, blank, freshId(i), v);
    }
    forall i | 0 <= i < |quick|
      ensures RetrieveQuickLabel(sc.quick[i], i) ==
              quick[i].(foreColor := SavedColor(quick[i].foreColor), backColor := SavedColor(quick[i].backColor))
    {
      QuickLabelRoundTrip(quick[i], i);
    }
  }
}
