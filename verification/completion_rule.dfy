/** Completion derivation (utility/determineCompletion.ts): classify an item
    by how many of its components have reached their required count. */
module CompletionRule {
  import opened Wrappers
  import opened Catalog
  import opened StateTypes

  /** `components.find(c => c.uniqueName === key)?.itemCount`. */
  function FirstItemCount(cs: seq<Component>, key: string): (r: Option<int>)
    ensures r.None? <==> forall i :: 0 <= i < |cs| ==> cs[i].uniqueName != key
    ensures r.Some? ==> exists i ::
      && 0 <= i < |cs| && cs[i].uniqueName == key && r.value == cs[i].itemCount
      && forall j :: 0 <= j < i ==> cs[j].uniqueName != key
  {
    match FindName(cs, key)
    case Some(i) => Some(cs[i].itemCount)
    case None => None
  }

  /** Every listed component has an entry in the count map, so the lookups
      `progress.components[key]` succeed. */
  predicate Covers(counts: map<string, int>, cs: seq<Component>) {
    forall i :: 0 <= i < |cs| ==> cs[i].uniqueName in counts
  }

  /** A component name is "full" when its count equals the `itemCount` of the
      first listed component bearing that name. */
  predicate IsFull(counts: map<string, int>, all: seq<Component>, key: string)
    requires key in counts
  {
    Some(counts[key]) == FirstItemCount(all, key)
  }

  /** The number of entries of `cs` whose name is full (the `reduce`). */
  function CountFull(counts: map<string, int>, all: seq<Component>, cs: seq<Component>): (r: nat)
    requires Covers(counts, cs)
    ensures r <= |cs|
  {
    if |cs| == 0 then 0
    else (if IsFull(counts, all, cs[0].uniqueName) then 1 else 0) + CountFull(counts, all, cs[1..])
  }

  /** Every listed component is full. */
  predicate AllFull(counts: map<string, int>, cs: seq<Component>)
    requires Covers(counts, cs)
  {
    forall i :: 0 <= i < |cs| ==> IsFull(counts, cs, cs[i].uniqueName)
  }

  /** No listed component is full. */
  predicate NoneFull(counts: map<string, int>, cs: seq<Component>)
    requires Covers(counts, cs)
  {
    forall i :: 0 <= i < |cs| ==> !IsFull(counts, cs, cs[i].uniqueName)
  }

  /** The count reaches the list's length exactly when every entry is full. */
  lemma {:induction false} CountFullAll(counts: map<string, int>, all: seq<Component>, cs: seq<Component>)
    requires Covers(counts, cs)
    ensures CountFull(counts, all, cs) == |cs| <==>
      forall i :: 0 <= i < |cs| ==> IsFull(counts, all, cs[i].uniqueName)
  {
    if |cs| > 0 {
      CountFullAll(counts, all, cs[1..]);
      assert forall i :: 1 <= i < |cs| ==> cs[i] == cs[1..][i - 1];
    }
  }

  /** The count is zero exactly when no entry is full. */
  lemma {:induction false} CountFullNone(counts: map<string, int>, all: seq<Component>, cs: seq<Component>)
    requires Covers(counts, cs)
    ensures CountFull(counts, all, cs) == 0 <==>
      forall i :: 0 <= i < |cs| ==> !IsFull(counts, all, cs[i].uniqueName)
  {
    if |cs| > 0 {
      CountFullNone(counts, all, cs[1..]);
      assert forall i :: 1 <= i < |cs| ==> cs[i] == cs[1..][i - 1];
    }
  }

  /** The precondition of `DetermineCompletion`: when both the item's list and
      the progress map are present, the map covers the list. */
  predicate Lookups(item: Item, progress: Progress) {
    item.components.Some? && progress.components.Some? ==>
      Covers(progress.components.value, item.components.value)
  }

  /** `determineCompletion`: `None` (null) when the item has no component list
      or the progress has no component map; otherwise ReadyToCraft when every
      component is full (vacuously so for an empty list), MissingEverything
      when none is, MissingSomething in between. Never Done. */
  function DetermineCompletion(item: Item, progress: Progress): (r: Option<Completion>)
    requires Lookups(item, progress)
    ensures r.None? <==> item.components.None? || progress.components.None?
    ensures r != Some(Done)
  {
    if item.components.None? || progress.components.None? then None
    else
      var cs := item.components.value;
      var completed := CountFull(progress.components.value, cs, cs);
      if completed == |cs| then Some(ReadyToCraft)
      else if completed == 0 then Some(MissingEverything)
      else Some(MissingSomething)
  }

  /** The three derived values, each characterised by which components are full. */
  lemma DetermineCompletionClassifies(item: Item, progress: Progress)
    requires item.components.Some? && progress.components.Some?
    requires Covers(progress.components.value, item.components.value)
    ensures var counts, cs := progress.components.value, item.components.value;
      DetermineCompletion(item, progress) == Some(ReadyToCraft) <==> AllFull(counts, cs)
    ensures var counts, cs := progress.components.value, item.components.value;
      DetermineCompletion(item, progress) == Some(MissingEverything) <==> |cs| > 0 && NoneFull(counts, cs)
    ensures var counts, cs := progress.components.value, item.components.value;
      DetermineCompletion(item, progress) == Some(MissingSomething) <==>
        !AllFull(counts, cs) && !NoneFull(counts, cs)
  {
    var counts, cs := progress.components.value, item.components.value;
    CountFullAll(counts, cs, cs);
    CountFullNone(counts, cs, cs);
  }

  /** With distinct names, "full" means the count equals the component's own
      `itemCount`. */
  lemma IsFullDistinct(counts: map<string, int>, cs: seq<Component>, i: int)
    requires DistinctNames(cs)
    requires 0 <= i < |cs| && cs[i].uniqueName in counts
    ensures IsFull(counts, cs, cs[i].uniqueName) <==> counts[cs[i].uniqueName] == cs[i].itemCount
  {
    FindNameDistinct(cs, i);
  }

  /** The full-count depends only on the counts of the listed names. */
  lemma {:induction false} CountFullLocal(c1: map<string, int>, c2: map<string, int>, all: seq<Component>, cs: seq<Component>)
    requires Covers(c1, cs) && Covers(c2, cs)
    requires forall i :: 0 <= i < |cs| ==> c1[cs[i].uniqueName] == c2[cs[i].uniqueName]
    ensures CountFull(c1, all, cs) == CountFull(c2, all, cs)
  {
    if |cs| > 0 {
      assert forall i :: 1 <= i < |cs| ==> cs[i] == cs[1..][i - 1];
      CountFullLocal(c1, c2, all, cs[1..]);
    }
  }

  /** The derived completion depends only on the counts of the item's own
      listed components, not on other entries or on the stored completion. */
  lemma DetermineCompletionLocal(item: Item, p1: Progress, p2: Progress)
    requires item.components.Some? && p1.components.Some? && p2.components.Some?
    requires Covers(p1.components.value, item.components.value)
    requires Covers(p2.components.value, item.components.value)
    requires forall i :: 0 <= i < |item.components.value| ==>
      p1.components.value[item.components.value[i].uniqueName] ==
      p2.components.value[item.components.value[i].uniqueName]
    ensures DetermineCompletion(item, p1) == DetermineCompletion(item, p2)
  {
    var cs := item.components.value;
    CountFullLocal(p1.components.value, p2.components.value, cs, cs);
  }
}
