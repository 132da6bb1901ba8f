/**
 * `HighlighterSetCollection`: all rule sets, the list of active set ids,
 * the quick labels and the combined set of active rules that matching uses.
 *
 * The combined set's rules are always rebuilt wholesale from scratch: the
 * rules of every set whose id is active, in the order of the sets (not the
 * order of activation).
 */
module Collections {
  import opened Wrappers
  import opened Highlighters
  import opened HighlighterSets
  import opened QuickLabels
  import opened Persistence

  /** `std::any_of` over the sets' ids. */
  function HasSetIn(sets: seq<HighlighterSet>, id: string): (r: bool)
    ensures r <==> exists j :: 0 <= j < |sets| && sets[j].id == id
    decreases |sets|
  {
    if sets == [] then false
    else if sets[0].id == id then true
    else
      var r := HasSetIn(sets[1..], id);
      assert r ==> exists j :: 0 <= j < |sets| && sets[j].id == id by {
        if r {
          var j :| 0 <= j < |sets[1..]| && sets[1..][j].id == id;
          assert sets[j + 1].id == id;
        }
      }
      r
  }

  /** `std::any_of` over the sets' names. */
  function HasSetByNameIn(sets: seq<HighlighterSet>, name: string): (r: bool)
    ensures r <==> exists j :: 0 <= j < |sets| && sets[j].name == name
    decreases |sets|
  {
    if sets == [] then false
    else if sets[0].name == name then true
    else
      var r := HasSetByNameIn(sets[1..], name);
      assert r ==> exists j :: 0 <= j < |sets| && sets[j].name == name by {
        if r {
          var j :| 0 <= j < |sets[1..]| && sets[1..][j].name == name;
          assert sets[j + 1].name == name;
        }
      }
      r
  }

  predicate NoDuplicates(s: seq<string>) {
    forall i, j :: 0 <= i < j < |s| ==> s[i] != s[j]
  }

  // ---------------------------------------------------------------------
  // The combined active set

  /** The rules of every set whose id is active, concatenated in the order of the sets. */
  function Combined(sets: seq<HighlighterSet>, active: seq<string>): (r: seq<Highlighter>)
    decreases |sets|
  {
    if sets == [] then []
    else Combined(sets[..|sets| - 1], active) +
         (if sets[|sets| - 1].id in active then sets[|sets| - 1].highlighterList else [])
  }

  /** The combined rules follow the order of the sets: those of earlier sets come first. */
  lemma {:induction false} CombinedAppend(s1: seq<HighlighterSet>, s2: seq<HighlighterSet>, active: seq<string>)
    ensures Combined(s1 + s2, active) == Combined(s1, active) + Combined(s2, active)
    decreases |s2|
  {
    if s2 == [] {
      assert s1 + s2 == s1;
    } else {
      var init := s2[..|s2| - 1];
      var last := s2[|s2| - 1];
      var tail := if last.id in active then last.highlighterList else [];
      CombinedAppend(s1, init, active);
      assert (s1 + s2)[..|s1 + s2| - 1] == s1 + init;
      assert (s1 + s2)[|s1 + s2| - 1] == last;
      assert Combined(s1 + s2, active) == Combined(s1 + init, active) + tail;
      assert Combined(s2, active) == Combined(init, active) + tail;
    }
  }

  /** A rule is combined exactly when it belongs to some set whose id is active. */
  lemma {:induction false} CombinedMembers(sets: seq<HighlighterSet>, active: seq<string>, h: Highlighter)
    ensures h in Combined(sets, active) <==>
            exists j :: 0 <= j < |sets| && sets[j].id in active && h in sets[j].highlighterList
    decreases |sets|
  {
    if sets != [] {
      var init := sets[..|sets| - 1];
      CombinedMembers(init, active, h);
      if exists j :: 0 <= j < |init| && init[j].id in active && h in init[j].highlighterList {
        var j :| 0 <= j < |init| && init[j].id in active && h in init[j].highlighterList;
        assert sets[j] == init[j];
      }
      if exists j :: 0 <= j < |sets| && sets[j].id in active && h in sets[j].highlighterList {
        var j :| 0 <= j < |sets| && sets[j].id in active && h in sets[j].highlighterList;
        if j < |init| { assert init[j] == sets[j]; }
      }
    }
  }

  /** Only which ids are active matters, not the order in which they were activated nor repeats. */
  lemma {:induction false} CombinedIgnoresActivationOrder(sets: seq<HighlighterSet>, a1: seq<string>, a2: seq<string>)
    requires forall id :: id in a1 <==> id in a2
    ensures Combined(sets, a1) == Combined(sets, a2)
    decreases |sets|
  {
    if sets != [] {
      CombinedIgnoresActivationOrder(sets[..|sets| - 1], a1, a2);
    }
  }

  /** With no active set there are no combined rules. */
  lemma {:induction false} CombinedWithoutActive(sets: seq<HighlighterSet>)
    ensures Combined(sets, []) == []
    decreases |sets|
  {
    if sets != [] {
      CombinedWithoutActive(sets[..|sets| - 1]);
    }
  }

  // ---------------------------------------------------------------------
  // The active list

  /** `activateSet` on the lists: unknown or already active ids change nothing, others are appended. */
  function Activate(active: seq<string>, sets: seq<HighlighterSet>, id: string): (r: seq<string>)
    ensures r == active || r == active + [id]
  {
    if !HasSetIn(sets, id) || id in active then active else active + [id]
  }

  /** Activation never creates a duplicate, and it makes a known id active. */
  lemma ActivateMembers(active: seq<string>, sets: seq<HighlighterSet>, id: string)
    ensures NoDuplicates(active) ==> NoDuplicates(Activate(active, sets, id))
    ensures forall x :: x in Activate(active, sets, id) <==> x in active || (x == id && HasSetIn(sets, id))
  {
    var r := Activate(active, sets, id);
    if NoDuplicates(active) && r != active {
      forall i, j | 0 <= i < j < |r| ensures r[i] != r[j] {
        if j == |active| { assert r[i] == active[i]; }
      }
    }
  }

  /** `remove_if` of the ids no set has: the known ids, in their order. */
  function KeepKnown(active: seq<string>, sets: seq<HighlighterSet>): (r: seq<string>)
    ensures |r| <= |active|
    decreases |active|
  {
    if active == [] then []
    else (if HasSetIn(sets, active[0]) then [active[0]] else []) + KeepKnown(active[1..], sets)
  }

  /** After `setHighlighterSets` an id is active exactly when it was and the new sets know it. */
  lemma {:induction false} KeepKnownMembers(active: seq<string>, sets: seq<HighlighterSet>)
    ensures forall x :: x in KeepKnown(active, sets) <==> x in active && HasSetIn(sets, x)
    decreases |active|
  {
    if active != [] {
      KeepKnownMembers(active[1..], sets);
      assert forall x :: x in active <==> x == active[0] || x in active[1..];
    }
  }

  /** Pruning keeps the active list free of duplicates. */
  lemma {:induction false} KeepKnownNoDuplicates(active: seq<string>, sets: seq<HighlighterSet>)
    requires NoDuplicates(active)
    ensures NoDuplicates(KeepKnown(active, sets))
    decreases |active|
  {
    if active != [] {
      var rest := active[1..];
      assert NoDuplicates(rest) by {
        forall i, j | 0 <= i < j < |rest| ensures rest[i] != rest[j] {
          assert rest[i] == active[i + 1] && rest[j] == active[j + 1];
        }
      }
      KeepKnownNoDuplicates(rest, sets);
      KeepKnownMembers(rest, sets);
      var tail := KeepKnown(rest, sets);
      if HasSetIn(sets, active[0]) {
        assert active[0] !in rest by {
          forall k | 0 <= k < |rest| ensures rest[k] != active[0] {
            assert rest[k] == active[k + 1];
          }
        }
        var r := [active[0]] + tail;
        forall i, j | 0 <= i < j < |r| ensures r[i] != r[j] {
          if i == 0 { assert r[j] == tail[j - 1]; }
          else { assert r[i] == tail[i - 1] && r[j] == tail[j - 1]; }
        }
      }
    }
  }

  /** Pruning leaves a list of known ids as it is. */
  lemma {:induction false} KeepKnownAllKnown(active: seq<string>, sets: seq<HighlighterSet>)
    requires forall i :: 0 <= i < |active| ==> HasSetIn(sets, active[i])
    ensures KeepKnown(active, sets) == active
    decreases |active|
  {
    if active != [] {
      var rest := active[1..];
      forall i | 0 <= i < |rest| ensures HasSetIn(sets, rest[i]) {
        assert rest[i] == active[i + 1];
      }
      KeepKnownAllKnown(rest, sets);
      assert HasSetIn(sets, active[0]);
      assert active == [active[0]] + rest;
    }
  }

  /** `QList::removeAll`: every occurrence of `id` removed, the rest kept in order. */
  function RemoveAll(active: seq<string>, id: string): (r: seq<string>)
    ensures |r| <= |active|
    decreases |active|
  {
    if active == [] then []
    else (if active[0] == id then [] else [active[0]]) + RemoveAll(active[1..], id)
  }

  /** After `deactivateSet` an id is active exactly when it was and is not the one removed. */
  lemma {:induction false} RemoveAllMembers(active: seq<string>, id: string)
    ensures forall x :: x in RemoveAll(active, id) <==> x in active && x != id
    ensures id !in active ==> RemoveAll(active, id) == active
    decreases |active|
  {
    if active != [] {
      RemoveAllMembers(active[1..], id);
      assert forall x :: x in active <==> x == active[0] || x in active[1..];
      assert active == [active[0]] + active[1..];
    }
  }

  /** Removal keeps the active list free of duplicates. */
  lemma {:induction false} RemoveAllNoDuplicates(active: seq<string>, id: string)
    requires NoDuplicates(active)
    ensures NoDuplicates(RemoveAll(active, id))
    decreases |active|
  {
    if active != [] {
      var rest := active[1..];
      assert NoDuplicates(rest) by {
        forall i, j | 0 <= i < j < |rest| ensures rest[i] != rest[j] {
          assert rest[i] == active[i + 1] && rest[j] == active[j + 1];
        }
      }
      RemoveAllNoDuplicates(rest, id);
      RemoveAllMembers(rest, id);
      var tail := RemoveAll(rest, id);
      if active[0] != id {
        assert active[0] !in rest by {
          forall k | 0 <= k < |rest| ensures rest[k] != active[0] {
            assert rest[k] == active[k + 1];
          }
        }
        var r := [active[0]] + tail;
        forall i, j | 0 <= i < j < |r| ensures r[i] != r[j] {
          if i == 0 { assert r[j] == tail[j - 1]; }
          else { assert r[i] == tail[i - 1] && r[j] == tail[j - 1]; }
        }
      }
    }
  }

  // ---------------------------------------------------------------------
  // Importing a pre-collection single set (retrieveFromStorage, end)

  /**
   * The import as the code is written: `activateSet` is called before the
   * set is appended, so it looks the id up among the sets loaded so far.
   */
  function ImportLegacyAsWritten(sets: seq<HighlighterSet>, active: seq<string>, legacy: HighlighterSet): (r: (seq<HighlighterSet>, seq<string>))
    ensures r.0 == sets + [legacy]
  {
    (sets + [legacy], Activate(active, sets, legacy.id))
  }

  /** A collection that does not already hold the legacy set's id ends up with the imported set inactive. */
  lemma LegacyImportNotActivatedAsWritten(sets: seq<HighlighterSet>, active: seq<string>, legacy: HighlighterSet)
    requires !HasSetIn(sets, legacy.id) && legacy.id !in active
    ensures legacy in ImportLegacyAsWritten(sets, active, legacy).0
    ensures legacy.id !in ImportLegacyAsWritten(sets, active, legacy).1
  {
  }

  /** The smallest instance: an empty collection importing a one-rule legacy set "x". */
  lemma LegacyImportExample(h: Highlighter)
    ensures ImportLegacyAsWritten([], [], HighlighterSet("Old set", "x", [h])) ==
            ([HighlighterSet("Old set", "x", [h])], [])
  {
    var legacy := HighlighterSet("Old set", "x", [h]);
    assert [] + [legacy] == [legacy];
    assert !HasSetIn([], "x");
  }

  /** The import as intended: the set is appended first and then activated. */
  function ImportLegacy(sets: seq<HighlighterSet>, active: seq<string>, legacy: HighlighterSet): (r: (seq<HighlighterSet>, seq<string>))
    ensures r.0 == sets + [legacy]
  {
    (sets + [legacy], Activate(active, sets + [legacy], legacy.id))
  }

  /** The imported set is then always active, its rules are combined, and no id is duplicated. */
  lemma LegacyImportActivates(sets: seq<HighlighterSet>, active: seq<string>, legacy: HighlighterSet)
    ensures var (s, a) := ImportLegacy(sets, active, legacy);
            && legacy.id in a
            && (forall x :: x in a <==> x in active || x == legacy.id)
            && (NoDuplicates(active) ==> NoDuplicates(a))
            && (forall h :: h in legacy.highlighterList ==> h in Combined(s, a))
  {
    var (s, a) := ImportLegacy(sets, active, legacy);
    assert HasSetIn(s, legacy.id) by { assert s[|sets|] == legacy; }
    ActivateMembers(active, s, legacy.id);
    forall h | h in legacy.highlighterList ensures h in Combined(s, a) {
      CombinedMembers(s, a, h);
      assert s[|sets|] == legacy;
    }
  }

  /** The set a default-constructed `HighlighterSet` starts from: no name, no id, no rules. */
  const DefaultSet: HighlighterSet := HighlighterSet("", "", [])

  /** The active list once the group's "current" key (an older single active set) is honoured. */
  function ActiveAfterGroup(sc: StoredCollection, sets: seq<HighlighterSet>): (r: seq<string>)
    ensures StringAt(sc.keys, "current", "") == "" ==> r == StringListAt(sc.keys, "active_sets")
  {
    var current := StringAt(sc.keys, "current", "");
    var active := StringListAt(sc.keys, "active_sets");
    if current != "" then Activate(active, sets, current) else active
  }

  /** The group's keys as the load leaves them: "current" removed, "active_sets" rewritten if it was honoured. */
  function KeysAfterGroup(sc: StoredCollection, sets: seq<HighlighterSet>): (r: Settings)
    ensures "current" !in r
    ensures StringListAt(r, "active_sets") == ActiveAfterGroup(sc, sets)
  {
    var current := StringAt(sc.keys, "current", "");
    var keys := sc.keys - {"current"};
    if current != "" then keys["active_sets" := StrList(ActiveAfterGroup(sc, sets))] else keys
  }

  /** The loop over the "sets" array: each slot's set, and the slot as the load leaves it. */
  method LoadSets(sc: StoredCollection, freshId: nat -> string, v: Versions) returns (sets: seq<HighlighterSet>, slots: seq<SetSlot>)
    ensures sets == RetrieveSets(sc, DefaultSet, freshId, v)
    ensures slots == MigratedSlots(sc, DefaultSet, freshId, v)
  {
    sets := [];
    slots := [];
    var i := 0;
    while i < |sc.sets|
      invariant 0 <= i <= |sc.sets|
      invariant sets == RetrieveSets(sc, DefaultSet, freshId, v)[..i]
      invariant slots == MigratedSlots(sc, DefaultSet, freshId, v)[..i]
    {
      var (loaded, slot) := RetrieveSet(sc.sets[i], DefaultSet, freshId(i), v);
      sets := sets + [loaded];
      slots := slots + [slot];
      i := i + 1;
    }
    assert RetrieveSets(sc, DefaultSet, freshId, v)[..i] == RetrieveSets(sc, DefaultSet, freshId, v);
    assert MigratedSlots(sc, DefaultSet, freshId, v)[..i] == MigratedSlots(sc, DefaultSet, freshId, v);
  }

  /** The loop over the "quick" array. */
  method LoadQuickLabels(sc: StoredCollection) returns (labels: seq<QuickHighlighter>)
    ensures labels == RetrieveQuickLabels(sc)
  {
    labels := [];
    var i := 0;
    while i < |sc.quick|
      invariant 0 <= i <= |sc.quick|
      invariant labels == RetrieveQuickLabels(sc)[..i]
    {
      labels := labels + [RetrieveQuickLabel(sc.quick[i], i)];
      i := i + 1;
    }
    assert RetrieveQuickLabels(sc)[..i] == RetrieveQuickLabels(sc);
  }

  class HighlighterSetCollection {
    var highlighters: seq<HighlighterSet>
    var activeSets: seq<string>
    var combinedActiveSet: HighlighterSet
    var quickHighlighters: seq<QuickHighlighter>

    /** The combined set is up to date with the sets and the active list. */
    ghost predicate Valid()
      reads this
    {
      combinedActiveSet.highlighterList == Combined(highlighters, activeSets)
    }

    /** `hasSet`. */
    function HasSet(id: string): (r: bool)
      reads this
      ensures r <==> exists j :: 0 <= j < |highlighters| && highlighters[j].id == id
    {
      HasSetIn(highlighters, id)
    }

    /** `hasSetByName`. */
    function HasSetByName(name: string): (r: bool)
      reads this
      ensures r <==> exists j :: 0 <= j < |highlighters| && highlighters[j].name == name
    {
      HasSetByNameIn(highlighters, name)
    }

    /** `updateCombinedSet`: the combined rules cleared, then every active set's rules appended in set order. */
    method UpdateCombinedSet()
      modifies this
      ensures highlighters == old(highlighters) && activeSets == old(activeSets)
      ensures quickHighlighters == old(quickHighlighters)
      ensures combinedActiveSet == old(combinedActiveSet).(highlighterList := Combined(highlighters, activeSets))
      ensures Valid()
    {
      var list: seq<Highlighter> := [];
      var i := 0;
      while i < |highlighters|
        invariant 0 <= i <= |highlighters|
        invariant list == Combined(highlighters[..i], activeSets)
      {
        assert highlighters[..i + 1][..i] == highlighters[..i];
        if highlighters[i].id in activeSets {
          list := list + highlighters[i].highlighterList;
        }
        i := i + 1;
      }
      assert highlighters[..i] == highlighters;
      combinedActiveSet := combinedActiveSet.(highlighterList := list);
    }

    /** `setHighlighterSets`: the sets replaced, ids no new set has dropped from the active list. */
    method SetHighlighterSets(sets: seq<HighlighterSet>)
      modifies this
      ensures highlighters == sets
      ensures activeSets == KeepKnown(old(activeSets), sets)
      ensures quickHighlighters == old(quickHighlighters)
      ensures combinedActiveSet == old(combinedActiveSet).(highlighterList := Combined(sets, activeSets))
      ensures Valid()
    {
      highlighters := sets;
      activeSets := KeepKnown(activeSets, sets);
      UpdateCombinedSet();
    }

    /** `activateSet`: no effect for an unknown or already active id; otherwise the id is appended. */
    method ActivateSet(id: string)
      modifies this
      ensures highlighters == old(highlighters) && quickHighlighters == old(quickHighlighters)
      ensures activeSets == Activate(old(activeSets), highlighters, id)
      ensures !HasSetIn(highlighters, id) || id in old(activeSets) ==> combinedActiveSet == old(combinedActiveSet)
      ensures HasSetIn(highlighters, id) && id !in old(activeSets) ==>
                combinedActiveSet == old(combinedActiveSet).(highlighterList := Combined(highlighters, activeSets))
      ensures old(Valid()) ==> Valid()
      ensures NoDuplicates(old(activeSets)) ==> NoDuplicates(activeSets)
    {
      ActivateMembers(activeSets, highlighters, id);
      if !HasSet(id) || id in activeSets {
        return;
      }
      activeSets := activeSets + [id];
      UpdateCombinedSet();
    }

    /** `deactivateSet`: every occurrence of the id removed. */
    method DeactivateSet(id: string)
      modifies this
      ensures highlighters == old(highlighters) && quickHighlighters == old(quickHighlighters)
      ensures activeSets == RemoveAll(old(activeSets), id)
      ensures id !in activeSets
      ensures combinedActiveSet == old(combinedActiveSet).(highlighterList := Combined(highlighters, activeSets))
      ensures Valid()
    {
      RemoveAllMembers(activeSets, id);
      activeSets := RemoveAll(activeSets, id);
      UpdateCombinedSet();
    }

    /** `deactivateAll`: no set active, so no combined rules. */
    method DeactivateAll()
      modifies this
      ensures highlighters == old(highlighters) && quickHighlighters == old(quickHighlighters)
      ensures activeSets == []
      ensures combinedActiveSet == old(combinedActiveSet).(highlighterList := [])
      ensures Valid()
    {
      activeSets := [];
      UpdateCombinedSet();
      CombinedWithoutActive(highlighters);
    }

    /** The quick-label normalisation at the end of loading: pad with the missing defaults, or cut to nine. */
    method NormalizeQuickHighlighters()
      modifies this
      ensures highlighters == old(highlighters) && activeSets == old(activeSets)
      ensures combinedActiveSet == old(combinedActiveSet)
      ensures quickHighlighters == NormalizedLabels(old(quickHighlighters))
      ensures |quickHighlighters| == QuickLabelCount
    {
      var defaults := DefaultLabels();
      var count := |defaults|;
      var labels := quickHighlighters;
      if |labels| < count {
        var i := |labels|;
        while i < count
          invariant |quickHighlighters| <= i <= count
          invariant labels == quickHighlighters + defaults[|quickHighlighters|..i]
        {
          assert defaults[|quickHighlighters|..i + 1] == defaults[|quickHighlighters|..i] + [defaults[i]];
          labels := labels + [defaults[i]];
          i := i + 1;
        }
      } else if |labels| > count {
        labels := labels[..count];
      }
      quickHighlighters := labels;
    }

    /** Importing a loaded pre-collection set: appended, then activated (see `ImportLegacy`). */
    method ImportLegacySet(legacy: HighlighterSet)
      modifies this
      ensures (highlighters, activeSets) == ImportLegacy(old(highlighters), old(activeSets), legacy)
      ensures quickHighlighters == old(quickHighlighters)
      ensures legacy.id in activeSets
      ensures legacy.id !in old(activeSets) ==>
                combinedActiveSet == old(combinedActiveSet).(highlighterList := Combined(highlighters, activeSets))
      ensures legacy.id in old(activeSets) ==> combinedActiveSet == old(combinedActiveSet)
    {
      LegacyImportActivates(highlighters, activeSets, legacy);
      highlighters := highlighters + [legacy];
      assert HasSetIn(highlighters, legacy.id) by { assert highlighters[|highlighters| - 1] == legacy; }
      ActivateSet(legacy.id);
    }

    /**
     * The versioned part of `retrieveFromStorage`, for a readable collection
     * group: the sets (each legacy group in them migrated), the active list
     * (with an old "current" set activated), and the stored quick labels.
     * Returns the group as the store holds it afterwards.
     */
    method RetrieveCollectionGroup(sc: StoredCollection, freshId: nat -> string, v: Versions) returns (written: StoredCollection)
      requires CollectionReadable(sc, v)
      modifies this
      ensures highlighters == RetrieveSets(sc, DefaultSet, freshId, v)
      ensures activeSets == ActiveAfterGroup(sc, highlighters)
      ensures quickHighlighters == RetrieveQuickLabels(sc)
      ensures written == StoredCollection(KeysAfterGroup(sc, highlighters), MigratedSlots(sc, DefaultSet, freshId, v), sc.quick)
      ensures var current := StringAt(sc.keys, "current", "");
              if current != "" && HasSetIn(highlighters, current) && current !in StringListAt(sc.keys, "active_sets")
              then combinedActiveSet == old(combinedActiveSet).(highlighterList := Combined(highlighters, activeSets))
              else combinedActiveSet == old(combinedActiveSet)
    {
      var slots;
      highlighters, slots := LoadSets(sc, freshId, v);
      activeSets := StringListAt(sc.keys, "active_sets");
      var current := StringAt(sc.keys, "current", "");
      var keys := sc.keys - {"current"};
      if current != "" {
        ActivateSet(current);
        keys := keys["active_sets" := StrList(activeSets)];
      }

      quickHighlighters := LoadQuickLabels(sc);
      written := StoredCollection(keys, slots, sc.quick);
    }

    /**
     * `HighlighterSetCollection::retrieveFromStorage`, as the code is written:
     * a non-empty legacy set is activated before it is appended (see
     * `ImportLegacyAsWritten`). `freshId(i)` is the id generated for slot i
     * of the sets array and `legacyFreshId` the one for a root-level legacy
     * set. Returns the store as the load leaves it.
     */
    method RetrieveFromStorage(store: Store, freshId: nat -> string, legacyFreshId: string, v: Versions) returns (updated: Store)
      modifies this
      ensures var readable := store.collection.Some? && CollectionReadable(store.collection.value, v);
              var loaded := if readable then RetrieveSets(store.collection.value, DefaultSet, freshId, v) else [];
              var active := if readable then ActiveAfterGroup(store.collection.value, loaded) else old(activeSets);
              var legacy := RetrieveSet(store.legacy, DefaultSet, legacyFreshId, v).0;
              && (legacy.highlighterList == [] ==> highlighters == loaded && activeSets == active)
              && (legacy.highlighterList != [] ==> (highlighters, activeSets) == ImportLegacyAsWritten(loaded, active, legacy))
              && quickHighlighters == NormalizedLabels(if readable then RetrieveQuickLabels(store.collection.value) else [])
      ensures |quickHighlighters| == QuickLabelCount
      ensures combinedActiveSet == old(combinedActiveSet).(highlighterList := Combined(highlighters, activeSets))
      ensures Valid()
      ensures var legacy := RetrieveSet(store.legacy, DefaultSet, legacyFreshId, v);
              updated.legacy == if legacy.0.highlighterList != [] then legacy.1.(highlighterSet := None) else legacy.1
      ensures var readable := store.collection.Some? && CollectionReadable(store.collection.value, v);
              var afterGroup := if readable
                then var sc := store.collection.value;
                     Some(StoredCollection(KeysAfterGroup(sc, RetrieveSets(sc, DefaultSet, freshId, v)),
                                           MigratedSlots(sc, DefaultSet, freshId, v), sc.quick))
                else store.collection;
              var legacy := RetrieveSet(store.legacy, DefaultSet, legacyFreshId, v).0;
              updated.collection ==
                if legacy.highlighterList != [] then Some(SaveCollection(highlighters, activeSets, quickHighlighters, afterGroup, v))
                else afterGroup
    {
      var readable := store.collection.Some? && CollectionReadable(store.collection.value, v);
      updated := store;
      if readable {
        var written := RetrieveCollectionGroup(store.collection.value, freshId, v);
        updated := updated.(collection := Some(written));
      } else {
        highlighters := [];
        quickHighlighters := [];
      }
      NormalizeQuickHighlighters();

      var (legacy, legacySlot) := RetrieveSet(store.legacy, DefaultSet, legacyFreshId, v);
      updated := updated.(legacy := legacySlot);
      if legacy.highlighterList != [] {
        ActivateSet(legacy.id);
        highlighters := highlighters + [legacy];
        updated := updated.(legacy := legacySlot.(highlighterSet := None));
        updated := updated.(collection := Some(SaveCollection(highlighters, activeSets, quickHighlighters, updated.collection, v)));
      }
      UpdateCombinedSet();
    }
  }
}
