/** The catalog's record shapes: the items and components the item API
    delivers, and the simplified records the tracker keeps of them. */
module Catalog {
  import opened Wrappers

  /** A component of a recipe, as kept by the tracker: `SimplifiedComponent`. */
  datatype Component = Component(
    uniqueName: string,
    itemCount: int,
    name: string,
    imageName: Option<string>)

  /** A trackable item, as kept by the tracker: `SimplifiedItem`. An absent
      `components` field (`None`) is distinct from an empty list. */
  datatype Item = Item(
    uniqueName: string,
    name: string,
    category: string,
    imageName: Option<string>,
    wikiaUrl: Option<string>,
    components: Option<seq<Component>>)

  /** A component as the item API delivers it; `drops` and `tradable` stand for
      the fields the tracker discards. */
  datatype RawComponent = RawComponent(
    uniqueName: string,
    itemCount: int,
    name: string,
    imageName: Option<string>,
    tradable: bool,
    drops: seq<string>)

  /** An item as the item API delivers it; `itemType` is the API's `type`
      field, and `description` stands for the fields the tracker discards. */
  datatype RawItem = RawItem(
    uniqueName: string,
    name: string,
    category: string,
    itemType: string,
    excludeFromCodex: Option<bool>,
    imageName: Option<string>,
    wikiaUrl: Option<string>,
    description: string,
    components: Option<seq<RawComponent>>)

  /** The categories the tracker shows, in the order of `ALL_ALLOWED_CATEGORIES`. */
  const AllowedCategories: seq<string> := [
    "Primary", "Secondary", "Melee", "Warframes", "Arch-Gun",
    "Arch-Melee", "Archwing", "Pets", "Sentinels"
  ]

  /** The set of `uniqueName`s of a component list. */
  function NameSet(cs: seq<Component>): set<string> {
    set i | 0 <= i < |cs| :: cs[i].uniqueName
  }

  /** No two components of the list share a `uniqueName`. */
  predicate DistinctNames(cs: seq<Component>) {
    forall i, j :: 0 <= i < j < |cs| ==> cs[i].uniqueName != cs[j].uniqueName
  }

  /** `cs.findIndex(c => c.uniqueName === key)`, as an optional index: the
      first component bearing `key`, or `None` when no component bears it. */
  function FindName(cs: seq<Component>, key: string): (r: Option<nat>)
    ensures r.Some? ==> r.value < |cs| && cs[r.value].uniqueName == key
    ensures r.Some? ==> forall j :: 0 <= j < r.value ==> cs[j].uniqueName != key
    ensures r.None? <==> forall j :: 0 <= j < |cs| ==> cs[j].uniqueName != key
  {
    if |cs| == 0 then None
    else if cs[0].uniqueName == key then Some(0)
    else match FindName(cs[1..], key)
      case None => None
      case Some(i) => Some(i + 1)
  }

  /** A name is found exactly when it is one of the list's names. */
  lemma FindNameFound(cs: seq<Component>, key: string)
    ensures FindName(cs, key).Some? <==> key in NameSet(cs)
  {
    if key in NameSet(cs) {
      var i :| 0 <= i < |cs| && cs[i].uniqueName == key;
    }
  }

  /** Searching a list extended by one component finds the earlier match if
      there is one, and the new component otherwise. */
  lemma {:induction false} FindNameAppend(cs: seq<Component>, c: Component, key: string)
    ensures FindName(cs + [c], key) ==
      if FindName(cs, key).Some? then FindName(cs, key)
      else if c.uniqueName == key then Some(|cs|)
      else None
  {
    if |cs| > 0 {
      assert (cs + [c])[1..] == cs[1..] + [c];
      FindNameAppend(cs[1..], c, key);
    }
  }

  /** In a list with distinct names, the first component bearing the name of
      `cs[i]` is `cs[i]` itself. */
  lemma FindNameDistinct(cs: seq<Component>, i: int)
    requires DistinctNames(cs)
    requires 0 <= i < |cs|
    ensures FindName(cs, cs[i].uniqueName) == Some(i)
  {
  }
}
