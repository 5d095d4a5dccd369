/** Which item cards are rendered (components/ProgressItems.tsx). */
module ProgressList {
  import opened Catalog
  import opened StateTypes
  import opened Seqs

  /** The state lookup the predicate performs without checking: only for an
      item of a selected category while completed items are hidden. */
  predicate CanJudge(state: State, categories: seq<string>, hideCompleted: bool, item: Item) {
    item.category in categories && hideCompleted ==> item.uniqueName in state
  }

  /** An item is rendered when its category is selected and, while completed
      items are hidden, it is not Done. */
  function Visible(state: State, categories: seq<string>, hideCompleted: bool, item: Item): (r: bool)
    requires CanJudge(state, categories, hideCompleted, item)
    ensures r ==> item.category in categories
    ensures !hideCompleted ==> (r <==> item.category in categories)
    ensures hideCompleted && item.uniqueName in state && state[item.uniqueName].completion == Done ==> !r
    ensures item.category in categories
      && (item.uniqueName in state ==> state[item.uniqueName].completion != Done)
      ==> r
  {
    item.category in categories && (!hideCompleted || state[item.uniqueName].completion != Done)
  }

  /** The rendered cards: the visible items, in input order, each as often as
      it occurs in the input. */
  function Rendered(items: seq<Item>, state: State, categories: seq<string>, hideCompleted: bool): (r: seq<Item>)
    requires forall i :: 0 <= i < |items| ==> CanJudge(state, categories, hideCompleted, items[i])
    ensures IsSubsequence(r, items)
    ensures forall x :: x in r ==> x in items && Visible(state, categories, hideCompleted, x)
    ensures forall x :: x in items ==>
      multiset(r)[x] == if Visible(state, categories, hideCompleted, x) then multiset(items)[x] else 0
  {
    var shown := x => CanJudge(state, categories, hideCompleted, x) && Visible(state, categories, hideCompleted, x);
    var r := Filter(items, shown);
    assert forall x :: x in r ==> x in items by {
      forall x | x in r ensures x in items {
        assert multiset(r)[x] > 0;
      }
    }
    r
  }
}
