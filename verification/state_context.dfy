/** The progress reducer and its initial state (components/StateContext.tsx).
    The reducer is a pure function from a state and an action to the next
    state; persistence, logging and timers are side channels left out. */
module StateContext {
  import opened Wrappers
  import opened Catalog
  import opened StateTypes
  import opened CompletionRule

  /** The five action kinds. `Autoload` carries the already-parsed blob read
      from storage (`None` when nothing is stored). */
  datatype Action =
    | SetComponentCount(item: Item, component: Component, count: int)
    | SetCompleted(item: Item, completion: Completion)
    | Autosave
    | Autoload(stored: Option<State>)
    | Import(data: Export)

  // ---------------------------------------------------------------------
  // Initial state

  /** `items[i]` is the last item of the list bearing its `uniqueName`. */
  predicate IsLastOfName(items: seq<Item>, i: int)
    requires 0 <= i < |items|
  {
    forall j :: i < j < |items| ==> items[j].uniqueName != items[i].uniqueName
  }

  /** The zero count map of one recipe: one entry per listed name. */
  function SeedCounts(cs: seq<Component>): (r: map<string, int>)
    ensures forall i :: 0 <= i < |cs| ==> cs[i].uniqueName in r
    ensures forall k :: k in r ==> r[k] == 0 && exists i :: 0 <= i < |cs| && cs[i].uniqueName == k
  {
    if |cs| == 0 then map[]
    else
      var p := cs[..|cs| - 1];
      var m := SeedCounts(p);
      assert forall i :: 0 <= i < |p| ==> p[i] == cs[i];
      m[cs[|cs| - 1].uniqueName := 0]
  }

  /** The progress an item starts with: every listed component at 0 (an empty
      map when the item has no component list), completion MissingEverything. */
  function SeedProgress(item: Item): (r: Progress)
    ensures r.completion == MissingEverything
    ensures r.components.Some?
    ensures forall k :: k in r.components.value ==> r.components.value[k] == 0
    ensures item.components.None? ==> r.components.value == map[]
    ensures item.components.Some? ==> Covers(r.components.value, item.components.value)
  {
    match item.components
    case None => Progress(Some(map[]), MissingEverything)
    case Some(cs) => Progress(Some(SeedCounts(cs)), MissingEverything)
  }

  /** The state the reducer starts from: one seeded entry per item name; on a
      repeated name the later item's entry wins. */
  function InitialState(items: seq<Item>): (r: State)
    ensures forall i :: 0 <= i < |items| ==> items[i].uniqueName in r
    ensures forall k :: k in r ==> exists i :: 0 <= i < |items| && items[i].uniqueName == k
    ensures forall k :: k in r ==> r[k].completion == MissingEverything
  {
    if |items| == 0 then map[]
    else
      var n := |items|;
      var p := items[..n - 1];
      assert forall i :: 0 <= i < n - 1 ==> p[i] == items[i];
      InitialState(p)[items[n - 1].uniqueName := SeedProgress(items[n - 1])]
  }

  /** The entry of each name is the seed of the LAST item bearing that name. */
  lemma {:induction false} InitialStateLastWins(items: seq<Item>, i: int)
    requires 0 <= i < |items| && IsLastOfName(items, i)
    ensures InitialState(items)[items[i].uniqueName] == SeedProgress(items[i])
  {
    var n := |items|;
    var p := items[..n - 1];
    if i < n - 1 {
      LastOfNamePrefix(items, i);
      InitialStateLastWins(p, i);
      assert InitialState(items)[items[i].uniqueName] == InitialState(p)[items[i].uniqueName];
    }
  }

  /** Being the last of its name survives dropping the final item, which bears
      another name. */
  lemma LastOfNamePrefix(items: seq<Item>, i: int)
    requires 0 <= i < |items| - 1 && IsLastOfName(items, i)
    ensures IsLastOfName(items[..|items| - 1], i)
    ensures items[|items| - 1].uniqueName != items[i].uniqueName
  {
    var p := items[..|items| - 1];
    forall j | i < j < |p|
      ensures p[j].uniqueName != p[i].uniqueName
    {
      assert p[j] == items[j];
    }
  }

  // ---------------------------------------------------------------------
  // SetComponentCount

  /** The lookups `SetComponentCount` performs without checking: the item's
      entry, its component map, the component's entry and, for
      `determineCompletion`, an entry for every listed component. */
  predicate CanSetCount(state: State, item: Item, component: Component) {
    && item.uniqueName in state
    && state[item.uniqueName].components.Some?
    && component.uniqueName in state[item.uniqueName].components.value
    && Lookups(item, state[item.uniqueName])
  }

  /** `SetComponentCount`: stores `count` as given (no clamping) and, for an item
      with a component list, recomputes the completion from the new counts.
      Nothing else in the state changes. */
  function SetComponentCountStep(state: State, item: Item, component: Component, count: int): (r: State)
    requires CanSetCount(state, item, component)
    ensures r.Keys == state.Keys
    ensures forall k :: k in state && k != item.uniqueName ==> r[k] == state[k]
    ensures var before, after := state[item.uniqueName], r[item.uniqueName];
      && after.components.Some?
      && after.components.value.Keys == before.components.value.Keys
      && after.components.value[component.uniqueName] == count
      && (forall k :: k in before.components.value && k != component.uniqueName ==>
            after.components.value[k] == before.components.value[k])
    ensures item.components.Some? ==>
      Lookups(item, r[item.uniqueName]) &&
      DetermineCompletion(item, r[item.uniqueName]) == Some(r[item.uniqueName].completion)
    ensures item.components.None? ==> r[item.uniqueName].completion == state[item.uniqueName].completion
  {
    var p := state[item.uniqueName];
    var counted := p.(components := Some(p.components.value[component.uniqueName := count]));
    var updated :=
      if item.components.Some? then
        counted.(completion := DetermineCompletion(item, counted).GetOr(MissingEverything))
      else counted;
    state[item.uniqueName := updated]
  }

  // ---------------------------------------------------------------------
  // SetCompleted

  /** The count a bulk write gives `c`: its `itemCount` when filling, 0 when
      resetting. */
  function BulkCount(c: Component, fill: bool): int {
    if fill then c.itemCount else 0
  }

  /** `c` is the last entry of `cs` bearing its name. */
  predicate IsLastComponent(cs: seq<Component>, i: int)
    requires 0 <= i < |cs|
  {
    forall j :: i < j < |cs| ==> cs[j].uniqueName != cs[i].uniqueName
  }

  /** The `components.map(...)` loop of `SetCompleted`: writes every listed
      component's count in list order, so on a repeated name the last write
      wins; unlisted entries are untouched. */
  function BulkSet(counts: map<string, int>, cs: seq<Component>, fill: bool): (r: map<string, int>)
    requires Covers(counts, cs)
    ensures r.Keys == counts.Keys
    ensures forall k :: k in counts && (forall i :: 0 <= i < |cs| ==> cs[i].uniqueName != k) ==> r[k] == counts[k]
    ensures forall i :: 0 <= i < |cs| && IsLastComponent(cs, i) ==> r[cs[i].uniqueName] == BulkCount(cs[i], fill)
  {
    if |cs| == 0 then counts
    else
      var m := BulkSet(counts, cs[..|cs| - 1], fill);
      BulkSetStep(counts, cs, fill, m);
      m[cs[|cs| - 1].uniqueName := BulkCount(cs[|cs| - 1], fill)]
  }

  /** The inductive step of `BulkSet`: writing the last component's count after
      the others extends the guarantees from the prefix to the whole list. */
  lemma BulkSetStep(counts: map<string, int>, cs: seq<Component>, fill: bool, m: map<string, int>)
    requires |cs| > 0 && Covers(counts, cs)
    requires var p := cs[..|cs| - 1];
      && m.Keys == counts.Keys
      && (forall k :: k in counts && (forall i :: 0 <= i < |p| ==> p[i].uniqueName != k) ==> m[k] == counts[k])
      && (forall i :: 0 <= i < |p| && IsLastComponent(p, i) ==> m[p[i].uniqueName] == BulkCount(p[i], fill))
    ensures var r := m[cs[|cs| - 1].uniqueName := BulkCount(cs[|cs| - 1], fill)];
      && r.Keys == counts.Keys
      && (forall k :: k in counts && (forall i :: 0 <= i < |cs| ==> cs[i].uniqueName != k) ==> r[k] == counts[k])
      && (forall i :: 0 <= i < |cs| && IsLastComponent(cs, i) ==> r[cs[i].uniqueName] == BulkCount(cs[i], fill))
  {
    var n := |cs|;
    var p := cs[..n - 1];
    var r := m[cs[n - 1].uniqueName := BulkCount(cs[n - 1], fill)];
    forall k | k in counts && (forall i :: 0 <= i < n ==> cs[i].uniqueName != k)
      ensures r[k] == counts[k]
    {
      assert cs[n - 1].uniqueName != k;
      assert forall i :: 0 <= i < |p| ==> p[i] == cs[i];
    }
    forall i | 0 <= i < n && IsLastComponent(cs, i)
      ensures r[cs[i].uniqueName] == BulkCount(cs[i], fill)
    {
      if i < n - 1 {
        assert p[i] == cs[i];
        assert IsLastComponent(p, i) by {
          forall j | i < j < |p| ensures p[j].uniqueName != p[i].uniqueName {
            assert p[j] == cs[j];
          }
        }
        assert cs[n - 1].uniqueName != cs[i].uniqueName;
      }
    }
  }

  /** The completions whose `SetCompleted` also rewrites the counts. */
  predicate IsBulkTarget(completion: Completion) {
    completion == MissingEverything || completion == Done
  }

  /** The lookups `SetCompleted` performs without checking: the item's entry
      and, when it rewrites counts of a non-empty list, the component map and
      an entry for every listed component. */
  predicate CanSetCompleted(state: State, item: Item, completion: Completion) {
    && item.uniqueName in state
    && (item.components.Some? && IsBulkTarget(completion) && |item.components.value| > 0 ==>
          state[item.uniqueName].components.Some? &&
          Covers(state[item.uniqueName].components.value, item.components.value))
  }

  /** `SetCompleted`: sets the completion as given. For an item with a component
      list, Done also sets every listed count to its `itemCount` and
      MissingEverything resets every listed count to 0; any other target, or an
      item without a list, leaves the counts alone. Nothing else changes. */
  function SetCompletedStep(state: State, item: Item, completion: Completion): (r: State)
    requires CanSetCompleted(state, item, completion)
    ensures r.Keys == state.Keys
    ensures forall k :: k in state && k != item.uniqueName ==> r[k] == state[k]
    ensures r[item.uniqueName].completion == completion
    ensures item.components.None? || !IsBulkTarget(completion) || |item.components.value| == 0 ==>
      r[item.uniqueName].components == state[item.uniqueName].components
    ensures item.components.Some? && IsBulkTarget(completion) && |item.components.value| > 0 ==>
      var cs, before, after := item.components.value, state[item.uniqueName].components.value, r[item.uniqueName].components;
      && after.Some?
      && after.value.Keys == before.Keys
      && (forall k :: k in before && (forall i :: 0 <= i < |cs| ==> cs[i].uniqueName != k) ==> after.value[k] == before[k])
      && (forall i :: 0 <= i < |cs| && IsLastComponent(cs, i) ==>
            after.value[cs[i].uniqueName] == BulkCount(cs[i], completion == Done))
  {
    var p := state[item.uniqueName].(completion := completion);
    var updated :=
      if item.components.Some? && IsBulkTarget(completion) && |item.components.value| > 0 then
        p.(components := Some(BulkSet(p.components.value, item.components.value, completion == Done)))
      else p;
    state[item.uniqueName := updated]
  }

  // ---------------------------------------------------------------------
  // Autoload / Import

  /** `{ ...state, ...blob }`: every key of either map; the blob's entry wins
      on a shared key, and keys absent from the blob keep their entry. */
  function Overlay(state: State, blob: State): (r: State)
    ensures r.Keys == state.Keys + blob.Keys
    ensures forall k :: k in blob ==> r[k] == blob[k]
    ensures forall k :: k in state && k !in blob ==> r[k] == state[k]
  {
    state + blob
  }

  /** A blob that covers every key of the state replaces it entirely. */
  lemma OverlayCovering(state: State, blob: State)
    requires state.Keys <= blob.Keys
    ensures Overlay(state, blob) == blob
  {
  }

  /** Overlaying a state onto itself is the identity. */
  lemma OverlaySelf(state: State)
    ensures Overlay(state, state) == state
  {
  }

  /** Overlaying is idempotent: loading the same blob twice equals loading it once. */
  lemma OverlayIdempotent(state: State, blob: State)
    ensures Overlay(Overlay(state, blob), blob) == Overlay(state, blob)
  {
  }

  // ---------------------------------------------------------------------
  // The reducer

  /** What the reducer needs of the state for the action to be processed
      without an exception. */
  predicate Applicable(state: State, action: Action) {
    match action
    case SetComponentCount(item, component, _) => CanSetCount(state, item, component)
    case SetCompleted(item, completion) => CanSetCompleted(state, item, completion)
    case Autosave => true
    case Autoload(_) => true
    case Import(_) => true
  }

  /** `reducer`. It yields no state (`undefined` in the source) only for an
      import of an unknown save version; it never removes an entry; and only
      Autoload and Import can add entries. */
  function Reduce(state: State, action: Action): (r: Option<State>)
    requires Applicable(state, action)
    ensures r.None? <==> action.Import? && action.data.version != Version0
    ensures r.Some? ==> state.Keys <= r.value.Keys
    ensures r.Some? && !action.Autoload? && !action.Import? ==> r.value.Keys == state.Keys
    ensures action.Autosave? ==> r == Some(state)
    ensures action.Autoload? && action.stored.None? ==> r == Some(state)
  {
    match action
    case SetComponentCount(item, component, count) =>
      Some(SetComponentCountStep(state, item, component, count))
    case SetCompleted(item, completion) =>
      Some(SetCompletedStep(state, item, completion))
    case Autosave => Some(state)
    case Autoload(stored) =>
      (match stored
       case None => Some(state)
       case Some(blob) => Some(Overlay(state, blob)))
    case Import(data) =>
      if data.version == Version0 then Some(Overlay(state, data.state)) else None
  }
}
