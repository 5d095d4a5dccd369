/** How the pieces fit together: the tile and portrait rules feed the reducer,
    and the reducer keeps every component count within `[0, itemCount]` and,
    for every item with at least one listed component, the stored completion
    in agreement with the counts. */
module Tracker {
  import opened Wrappers
  import opened Catalog
  import opened StateTypes
  import opened CompletionRule
  import opened StateContext
  import opened ComponentPreview
  import opened ProgressItemView

  /** A recipe as the catalog delivers it after merging: distinct component
      names and positive required counts. */
  predicate ValidRecipe(cs: seq<Component>) {
    DistinctNames(cs) && forall i :: 0 <= i < |cs| ==> cs[i].itemCount > 0
  }

  /** A catalog whose items have distinct names and valid recipes. */
  predicate ValidCatalog(items: seq<Item>) {
    && (forall i, j :: 0 <= i < j < |items| ==> items[i].uniqueName != items[j].uniqueName)
    && (forall i :: 0 <= i < |items| && items[i].components.Some? ==> ValidRecipe(items[i].components.value))
  }

  /** Every listed count lies in `[0, itemCount]`. */
  predicate CountsInRange(counts: map<string, int>, cs: seq<Component>)
    requires Covers(counts, cs)
  {
    forall i :: 0 <= i < |cs| ==> 0 <= counts[cs[i].uniqueName] <= cs[i].itemCount
  }

  /** The stored completion is the one derived from the counts, or Done while
      the counts derive ReadyToCraft. */
  predicate CompletionAgrees(item: Item, p: Progress)
    requires Lookups(item, p)
  {
    var derived := DetermineCompletion(item, p);
    derived == Some(p.completion) || (p.completion == Done && derived == Some(ReadyToCraft))
  }

  /** One item's progress is well formed for that item: it has a count map,
      and for a listed recipe the map covers it with counts in range. The
      completion is constrained only when the recipe lists a component. */
  predicate ProgressOk(item: Item, p: Progress) {
    && p.components.Some?
    && (item.components.Some? ==>
          && Covers(p.components.value, item.components.value)
          && CountsInRange(p.components.value, item.components.value)
          && (|item.components.value| > 0 ==> CompletionAgrees(item, p)))
  }

  /** Every catalog item has a well-formed entry. */
  predicate Invariant(state: State, items: seq<Item>) {
    forall i :: 0 <= i < |items| ==> items[i].uniqueName in state && ProgressOk(items[i], state[items[i].uniqueName])
  }

  /** Counts all at `itemCount` derive ReadyToCraft. */
  lemma DeriveAllFull(item: Item, p: Progress)
    requires item.components.Some? && p.components.Some?
    requires DistinctNames(item.components.value)
    requires Covers(p.components.value, item.components.value)
    requires forall i :: 0 <= i < |item.components.value| ==>
      p.components.value[item.components.value[i].uniqueName] == item.components.value[i].itemCount
    ensures DetermineCompletion(item, p) == Some(ReadyToCraft)
  {
    var cs, counts := item.components.value, p.components.value;
    forall i | 0 <= i < |cs| ensures IsFull(counts, cs, cs[i].uniqueName) {
      IsFullDistinct(counts, cs, i);
    }
    DetermineCompletionClassifies(item, p);
  }

  /** Counts all at 0 derive MissingEverything when every `itemCount` is positive. */
  lemma DeriveAllEmpty(item: Item, p: Progress)
    requires item.components.Some? && p.components.Some?
    requires ValidRecipe(item.components.value) && |item.components.value| > 0
    requires Covers(p.components.value, item.components.value)
    requires forall i :: 0 <= i < |item.components.value| ==>
      p.components.value[item.components.value[i].uniqueName] == 0
    ensures DetermineCompletion(item, p) == Some(MissingEverything)
  {
    var cs, counts := item.components.value, p.components.value;
    forall i | 0 <= i < |cs| ensures !IsFull(counts, cs, cs[i].uniqueName) {
      IsFullDistinct(counts, cs, i);
    }
    DetermineCompletionClassifies(item, p);
  }

  /** The seeded state satisfies the invariant: all counts 0 and every recipe
      MissingEverything. */
  lemma InitialStateInvariant(items: seq<Item>)
    requires ValidCatalog(items)
    ensures Invariant(InitialState(items), items)
  {
    var s := InitialState(items);
    forall i | 0 <= i < |items|
      ensures items[i].uniqueName in s && ProgressOk(items[i], s[items[i].uniqueName])
    {
      assert IsLastOfName(items, i);
      InitialStateLastWins(items, i);
      var p := s[items[i].uniqueName];
      if items[i].components.Some? && |items[i].components.value| > 0 {
        DeriveAllEmpty(items[i], p);
      }
    }
  }

  // ---------------------------------------------------------------------
  // User events

  /** A stored or imported blob whose entry for each catalog item, where it
      has one, is well formed for that item. */
  predicate BlobOk(items: seq<Item>, blob: State) {
    forall i :: 0 <= i < |items| && items[i].uniqueName in blob ==>
      ProgressOk(items[i], blob[items[i].uniqueName])
  }

  /** The ways progress changes: typing a count, clicking a component tile or
      clicking the portrait (addressed by catalog position), the autoload of
      the saved blob, and importing a save file. */
  datatype Event =
    | EnterCount(item: nat, component: nat, value: int)
    | ClickComponent(item: nat, component: nat)
    | ClickPortrait(item: nat)
    | Load(stored: Option<State>)
    | ImportFile(data: Export)

  /** A component tile exists: the card shows tiles only for a craftable item,
      one per listed component. */
  predicate HasTile(items: seq<Item>, i: nat, j: nat) {
    i < |items| && IsCraftable(items[i]) && items[i].components.Some? && j < |items[i].components.value|
  }

  /** The event addresses something the page renders: a component tile of a
      craftable item, or the portrait of an item with a non-empty image name
      (an empty name is falsy, so no portrait is rendered). A loaded or
      imported blob is well formed for the catalog, and an imported file has
      the known version. */
  predicate EventValid(items: seq<Item>, ev: Event) {
    match ev
    case EnterCount(i, j, _) => HasTile(items, i, j)
    case ClickComponent(i, j) => HasTile(items, i, j)
    case ClickPortrait(i) => i < |items| && items[i].imageName.Some? && items[i].imageName.value != ""
    case Load(stored) => stored.Some? ==> BlobOk(items, stored.value)
    case ImportFile(data) => data.version == Version0 && BlobOk(items, data.state)
  }

  /** The action dispatched for an event: the tile events go through the clamp
      of `setValue`, the portrait event through the Done toggle, and the
      autoload and import events dispatch their blob unchanged. */
  function EventAction(state: State, items: seq<Item>, ev: Event): (a: Action)
    requires EventValid(items, ev) && Invariant(state, items)
    ensures ev.EnterCount? || ev.ClickComponent? ==> a.SetComponentCount? && a.item == items[ev.item]
    ensures ev.ClickPortrait? ==> a.SetCompleted? && a.item == items[ev.item]
    ensures ev.Load? ==> a == Autoload(ev.stored)
    ensures ev.ImportFile? ==> a == Import(ev.data)
  {
    match ev
    case EnterCount(i, j, value) => SetValue(items[i], items[i].components.value[j], value)
    case ClickComponent(i, j) =>
      var item := items[i];
      var c := item.components.value[j];
      assert item.uniqueName in state && ProgressOk(item, state[item.uniqueName]);
      Click(item, c, state[item.uniqueName].components.value[c.uniqueName])
    case ClickPortrait(i) =>
      assert items[i].uniqueName in state;
      PortraitClick(items[i], state[items[i].uniqueName].completion)
    case Load(stored) => Autoload(stored)
    case ImportFile(data) => Import(data)
  }

  /** An item that is not craftable has no tiles, so among the user's clicks
      only its own portrait changes its entry; every other click leaves it
      as it was. */
  lemma NotCraftableOnlyPortrait(state: State, items: seq<Item>, ev: Event, i: nat)
    requires ValidCatalog(items) && Invariant(state, items) && EventValid(items, ev)
    requires i < |items| && !IsCraftable(items[i])
    requires ev.EnterCount? || ev.ClickComponent? || (ev.ClickPortrait? && ev.item != i)
    ensures Applicable(state, EventAction(state, items, ev))
    ensures Reduce(state, EventAction(state, items, ev)).Some?
    ensures Reduce(state, EventAction(state, items, ev)).value[items[i].uniqueName] == state[items[i].uniqueName]
  {
    EventKeepsInvariant(state, items, ev);
    assert items[i].uniqueName in state;
    assert ev.item != i;
    assert items[ev.item].uniqueName != items[i].uniqueName;
  }

  /** Overlaying a well-formed blob keeps the invariant: every catalog entry is
      either kept from the state or replaced by a well-formed one. */
  lemma OverlayKeepsInvariant(state: State, items: seq<Item>, blob: State)
    requires Invariant(state, items) && BlobOk(items, blob)
    ensures Invariant(Overlay(state, blob), items)
  {
  }

  /** A stale blob, written for an older recipe, breaks the invariant: after
      loading it the entry lacks a count for a listed component. */
  lemma StaleBlobBreaksInvariant()
    ensures var stale := map["x" := Progress(Some(map["a" := 0]), MissingEverything)];
      && Invariant(InitialState([ScenarioItem]), [ScenarioItem])
      && !BlobOk([ScenarioItem], stale)
      && !Invariant(Reduce(InitialState([ScenarioItem]), Autoload(Some(stale))).value, [ScenarioItem])
  {
    var stale := map["x" := Progress(Some(map["a" := 0]), MissingEverything)];
    InitialStateInvariant([ScenarioItem]);
    var s := Reduce(InitialState([ScenarioItem]), Autoload(Some(stale))).value;
    assert s["x"] == stale["x"];
    assert "b" !in s["x"].components.value;
  }

  /** A count change from a tile keeps the invariant. */
  lemma SetCountKeepsInvariant(state: State, items: seq<Item>, i: nat, j: nat, count: int)
    requires ValidCatalog(items) && Invariant(state, items)
    requires i < |items| && items[i].components.Some? && j < |items[i].components.value|
    requires 0 <= count <= items[i].components.value[j].itemCount
    ensures CanSetCount(state, items[i], items[i].components.value[j])
    ensures Invariant(SetComponentCountStep(state, items[i], items[i].components.value[j], count), items)
  {
    var item, cs := items[i], items[i].components.value;
    var c := cs[j];
    assert item.uniqueName in state && ProgressOk(item, state[item.uniqueName]);
    var s' := SetComponentCountStep(state, item, c, count);
    forall k | 0 <= k < |items|
      ensures items[k].uniqueName in s' && ProgressOk(items[k], s'[items[k].uniqueName])
    {
      assert items[k].uniqueName in state && ProgressOk(items[k], state[items[k].uniqueName]);
      if k != i {
        assert items[k].uniqueName != item.uniqueName;
      } else {
        var before, after := state[item.uniqueName].components.value, s'[item.uniqueName].components.value;
        forall m | 0 <= m < |cs| ensures 0 <= after[cs[m].uniqueName] <= cs[m].itemCount {
          if m != j {
            assert cs[m].uniqueName != c.uniqueName;
          }
        }
      }
    }
  }

  /** A portrait toggle keeps the invariant. */
  lemma SetCompletedKeepsInvariant(state: State, items: seq<Item>, i: nat, target: Completion)
    requires ValidCatalog(items) && Invariant(state, items)
    requires i < |items| && IsBulkTarget(target)
    ensures CanSetCompleted(state, items[i], target)
    ensures Invariant(SetCompletedStep(state, items[i], target), items)
  {
    var item := items[i];
    assert item.uniqueName in state && ProgressOk(item, state[item.uniqueName]);
    var s' := SetCompletedStep(state, item, target);
    forall k | 0 <= k < |items|
      ensures items[k].uniqueName in s' && ProgressOk(items[k], s'[items[k].uniqueName])
    {
      assert items[k].uniqueName in state && ProgressOk(items[k], state[items[k].uniqueName]);
      if k != i {
        assert items[k].uniqueName != item.uniqueName;
      } else if item.components.Some? && |item.components.value| > 0 {
        var cs := item.components.value;
        var p := s'[item.uniqueName];
        forall m | 0 <= m < |cs|
          ensures p.components.value[cs[m].uniqueName] == BulkCount(cs[m], target == Done)
        {
          assert IsLastComponent(cs, m);
        }
        if target == Done {
          DeriveAllFull(item, p);
        } else {
          DeriveAllEmpty(item, p);
        }
      }
    }
  }

  /** Every user event is applicable to a state satisfying the invariant, and
      the reduced state satisfies it again. */
  lemma EventKeepsInvariant(state: State, items: seq<Item>, ev: Event)
    requires ValidCatalog(items) && Invariant(state, items) && EventValid(items, ev)
    ensures Applicable(state, EventAction(state, items, ev))
    ensures Reduce(state, EventAction(state, items, ev)).Some?
    ensures Invariant(Reduce(state, EventAction(state, items, ev)).value, items)
  {
    var a := EventAction(state, items, ev);
    match ev
    case EnterCount(i, j, _) =>
      assert ValidRecipe(items[i].components.value);
      SetCountKeepsInvariant(state, items, i, j, a.count);
    case ClickComponent(i, j) =>
      assert ValidRecipe(items[i].components.value);
      SetCountKeepsInvariant(state, items, i, j, a.count);
    case ClickPortrait(i) =>
      SetCompletedKeepsInvariant(state, items, i, a.completion);
    case Load(stored) =>
      if stored.Some? {
        OverlayKeepsInvariant(state, items, stored.value);
      }
    case ImportFile(data) =>
      OverlayKeepsInvariant(state, items, data.state);
  }

  /** The state after a sequence of user events: each event's action is
      reduced in turn. The invariant holds throughout. */
  function Run(state: State, items: seq<Item>, events: seq<Event>): (r: State)
    requires ValidCatalog(items) && Invariant(state, items)
    requires forall i :: 0 <= i < |events| ==> EventValid(items, events[i])
    ensures Invariant(r, items)
    decreases |events|
  {
    if |events| == 0 then state
    else
      EventKeepsInvariant(state, items, events[0]);
      var next := Reduce(state, EventAction(state, items, events[0])).value;
      Run(next, items, events[1..])
  }

  /** A whole session: seed from the catalog, autoload the saved blob on mount,
      then apply the user's events. Every count stays in `[0, itemCount]`, and
      the completion of every item with at least one listed component agrees
      with its counts. */
  function Session(items: seq<Item>, stored: Option<State>, events: seq<Event>): (r: State)
    requires ValidCatalog(items)
    requires stored.Some? ==> BlobOk(items, stored.value)
    requires forall i :: 0 <= i < |events| ==> EventValid(items, events[i])
    ensures Invariant(r, items)
  {
    var seeded := InitialState(items);
    InitialStateInvariant(items);
    EventKeepsInvariant(seeded, items, Load(stored));
    Run(Reduce(seeded, Autoload(stored)).value, items, events)
  }

  /** The recipe of the worked session below: two of "a" and one of "b". */
  const ScenarioA := Component("a", 2, "A", None)
  const ScenarioB := Component("b", 1, "B", None)
  const ScenarioItem := Item("x", "X", "Primary", None, None, Some([ScenarioA, ScenarioB]))

  /** Seeding gives the recipe zero counts and MissingEverything. */
  lemma ScenarioSeed()
    ensures InitialState([ScenarioItem])["x"] == Progress(Some(map["a" := 0, "b" := 0]), MissingEverything)
  {
    var cs := [ScenarioA, ScenarioB];
    assert IsLastOfName([ScenarioItem], 0);
    InitialStateLastWins([ScenarioItem], 0);
    assert SeedCounts(cs) == map["a" := 0, "b" := 0] by {
      assert cs[..1] == [ScenarioA];
      assert [ScenarioA][..0] == [];
    }
  }

  /** Completing "a" alone gives MissingSomething. */
  lemma ScenarioFirst(s: State)
    requires "x" in s && s["x"] == Progress(Some(map["a" := 0, "b" := 0]), MissingEverything)
    ensures Reduce(s, SetComponentCount(ScenarioItem, ScenarioA, 2)).Some?
    ensures Reduce(s, SetComponentCount(ScenarioItem, ScenarioA, 2)).value["x"]
      == Progress(Some(map["a" := 2, "b" := 0]), MissingSomething)
  {
    var cs := [ScenarioA, ScenarioB];
    FindNameDistinct(cs, 0);
    FindNameDistinct(cs, 1);
    var m := map["a" := 2, "b" := 0];
    var s1 := SetComponentCountStep(s, ScenarioItem, ScenarioA, 2);
    assert s1["x"].components.value == m;
    assert IsFull(m, cs, "a") && !IsFull(m, cs, "b");
    DetermineCompletionClassifies(ScenarioItem, s1["x"]);
  }

  /** Completing "b" as well gives ReadyToCraft. */
  lemma ScenarioSecond(s: State)
    requires "x" in s && s["x"] == Progress(Some(map["a" := 2, "b" := 0]), MissingSomething)
    ensures Reduce(s, SetComponentCount(ScenarioItem, ScenarioB, 1)).Some?
    ensures Reduce(s, SetComponentCount(ScenarioItem, ScenarioB, 1)).value["x"]
      == Progress(Some(map["a" := 2, "b" := 1]), ReadyToCraft)
  {
    var cs := [ScenarioA, ScenarioB];
    FindNameDistinct(cs, 0);
    FindNameDistinct(cs, 1);
    var m := map["a" := 2, "b" := 1];
    var s2 := SetComponentCountStep(s, ScenarioItem, ScenarioB, 1);
    assert s2["x"].components.value == m;
    assert IsFull(m, cs, "a") && IsFull(m, cs, "b");
    DetermineCompletionClassifies(ScenarioItem, s2["x"]);
  }

  /** A worked session: the recipe starts at MissingEverything, is
      MissingSomething once "a" is complete, and ReadyToCraft once "b" is
      too. */
  lemma TwoComponentScenario()
    ensures var s0 := InitialState([ScenarioItem]);
      && s0["x"] == Progress(Some(map["a" := 0, "b" := 0]), MissingEverything)
      && var s1 := Reduce(s0, SetComponentCount(ScenarioItem, ScenarioA, 2));
      && s1.Some? && s1.value["x"] == Progress(Some(map["a" := 2, "b" := 0]), MissingSomething)
      && var s2 := Reduce(s1.value, SetComponentCount(ScenarioItem, ScenarioB, 1));
      && s2.Some? && s2.value["x"] == Progress(Some(map["a" := 2, "b" := 1]), ReadyToCraft)
  {
    var s0 := InitialState([ScenarioItem]);
    ScenarioSeed();
    ScenarioFirst(s0);
    ScenarioSecond(Reduce(s0, SetComponentCount(ScenarioItem, ScenarioA, 2)).value);
  }
}
