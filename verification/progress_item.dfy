/** The rules of one item card (components/ProgressItem/index.tsx): which items
    count as craftable, the completion label and background, and the portrait
    click that toggles Done. */
module ProgressItemView {
  import opened Catalog
  import opened StateTypes
  import opened CompletionRule
  import opened StateContext

  /** The component name of a bare blueprint, which alone is not a recipe. */
  const BlueprintName: string := "Blueprint"

  /** `isCraftable`: a component list of two or more entries, or of exactly one
      entry that is not the bare blueprint. */
  function IsCraftable(item: Item): (r: bool)
    ensures item.components.None? ==> !r
    ensures item.components.Some? && |item.components.value| == 0 ==> !r
    ensures item.components.Some? && |item.components.value| == 1 ==>
      (r <==> item.components.value[0].name != BlueprintName)
    ensures item.components.Some? && |item.components.value| >= 2 ==> r
  {
    match item.components
    case None => false
    case Some(cs) => (|cs| == 1 && cs[0].name != BlueprintName) || |cs| > 1
  }

  /** `completionString`. */
  function CompletionString(c: Completion): string {
    match c
    case MissingEverything => "Not started"
    case MissingSomething => "Missing parts"
    case ReadyToCraft => "Ready to craft"
    case Done => "Done"
  }

  /** Distinct completions get distinct labels. */
  lemma CompletionStringDistinct(a: Completion, b: Completion)
    requires a != b
    ensures CompletionString(a) != CompletionString(b)
  {
  }

  /** The card background of a completion (the `bg-zinc-300` default is never
      reached, as the four cases are exhaustive). */
  function Background(c: Completion): string {
    match c
    case ReadyToCraft => "bg-cyan-200"
    case MissingEverything => "bg-red-200"
    case MissingSomething => "bg-amber-200"
    case Done => "bg-lime-200"
  }

  /** Distinct completions get distinct backgrounds. */
  lemma BackgroundDistinct(a: Completion, b: Completion)
    requires a != b
    ensures Background(a) != Background(b)
  {
  }

  /** The portrait click: mark the item Done unless it is Done already, in
      which case undo to MissingEverything. */
  function PortraitClick(item: Item, completed: Completion): (a: Action)
    ensures a.SetCompleted? && a.item == item
    ensures a.completion == Done <==> completed != Done
    ensures a.completion != Done ==> a.completion == MissingEverything
  {
    if completed != Done then SetCompleted(item, Done) else SetCompleted(item, MissingEverything)
  }

  /** The reducer lookups a portrait click needs: the item's entry, and a
      count for every listed component. */
  predicate CanToggle(state: State, item: Item) {
    && item.uniqueName in state
    && item.components.Some?
    && state[item.uniqueName].components.Some?
    && Covers(state[item.uniqueName].components.value, item.components.value)
  }

  /** Clicking the portrait of an item that is not Done marks it Done and
      fills every listed component. */
  lemma PortraitClickFills(state: State, item: Item)
    requires CanToggle(state, item) && DistinctNames(item.components.value)
    requires state[item.uniqueName].completion != Done
    ensures var s1 := Reduce(state, PortraitClick(item, state[item.uniqueName].completion)).value;
      var cs := item.components.value;
      && s1[item.uniqueName].completion == Done
      && (|cs| > 0 ==> forall m :: 0 <= m < |cs| ==>
            s1[item.uniqueName].components.value[cs[m].uniqueName] == cs[m].itemCount)
  {
    var cs := item.components.value;
    assert forall m :: 0 <= m < |cs| ==> IsLastComponent(cs, m);
  }

  /** Marking an item Done and then undoing it is a bulk reset rather than a
      partial undo: every listed count ends at 0 and the completion at
      MissingEverything. */
  lemma PortraitClickTwiceResets(state: State, item: Item)
    requires CanToggle(state, item) && DistinctNames(item.components.value)
    requires state[item.uniqueName].completion != Done
    ensures var s1 := Reduce(state, PortraitClick(item, state[item.uniqueName].completion)).value;
      CanToggle(s1, item) &&
      var s2 := Reduce(s1, PortraitClick(item, s1[item.uniqueName].completion)).value;
      var cs := item.components.value;
      && s2[item.uniqueName].completion == MissingEverything
      && (|cs| > 0 ==> forall m :: 0 <= m < |cs| ==> s2[item.uniqueName].components.value[cs[m].uniqueName] == 0)
  {
    var cs := item.components.value;
    assert forall m :: 0 <= m < |cs| ==> IsLastComponent(cs, m);
  }
}
