/** The page-level rules (pages/index.tsx): the name search, the export
    envelope, and the `itemsByName` index built from the catalog. */
module HomePage {
  import opened Wrappers
  import opened Strings
  import opened Seqs
  import opened Catalog
  import opened StateTypes
  import opened StateContext

  /** The text typed into the search box becomes the active filter lower-cased. */
  function SearchFilter(text: string): (r: string)
    ensures |r| == |text|
    ensures IsLowerCase(r)
    ensures ToLower(r) == r
    ensures forall i :: 0 <= i < |text| && !IsUpper(text[i]) ==> r[i] == text[i]
    ensures forall i :: 0 <= i < |text| && IsUpper(text[i]) ==> r[i] as int == text[i] as int + 32
  {
    ToLowerIdempotent(text);
    ToLower(text)
  }

  /** An item's lower-cased name includes the filter. */
  predicate NameMatches(filter: string, item: Item) {
    Contains(ToLower(item.name), filter)
  }

  /** The empty filter matches every item. */
  lemma EmptyFilterMatchesAll(items: seq<Item>)
    ensures forall x :: x in items ==> NameMatches("", x)
  {
    forall x | x in items ensures NameMatches("", x) {
      ContainsEmpty(ToLower(x.name));
    }
  }

  /** `filtered`: the empty filter returns the list itself; otherwise the items
      whose lower-cased name includes the filter, in input order, each as
      often as in the input. The shortcut agrees with filtering. */
  function Search(items: seq<Item>, activeFilter: string): (r: seq<Item>)
    ensures |activeFilter| == 0 ==> r == items
    ensures IsSubsequence(r, items)
    ensures forall x :: x in r ==> NameMatches(activeFilter, x)
    ensures forall x :: multiset(r)[x] == if NameMatches(activeFilter, x) then multiset(items)[x] else 0
  {
    if |activeFilter| == 0 then
      EmptyFilterMatchesAll(items);
      FilterAll(items, x => NameMatches(activeFilter, x));
      items
    else Filter(items, x => NameMatches(activeFilter, x))
  }

  /** `exportSave`: the state wrapped in a version-0 envelope. */
  function ExportSave(state: State): Export {
    Export(state, Version0)
  }

  /** Importing a state's own export yields that state back. */
  lemma ImportOwnExport(state: State)
    ensures Reduce(state, Import(ExportSave(state))) == Some(state)
  {
    OverlaySelf(state);
  }

  /** Importing an export into a freshly seeded store reproduces the exported
      state, provided the export has an entry for every catalog item, as any
      state reached from the seeded one does. */
  lemma ImportIntoFreshStore(items: seq<Item>, exported: State)
    requires forall i :: 0 <= i < |items| ==> items[i].uniqueName in exported
    ensures Reduce(InitialState(items), Import(ExportSave(exported))) == Some(exported)
  {
    var seeded := InitialState(items);
    assert seeded.Keys <= exported.Keys;
    OverlayCovering(seeded, exported);
  }

  /** An envelope of any other version is rejected and yields no state. */
  lemma ImportUnknownVersion(state: State, data: Export)
    requires data.version != Version0
    ensures Reduce(state, Import(data)).None?
  {
  }

  /** `itemsByName`: each item under its `uniqueName`; a later item replaces an
      earlier one of the same name. */
  function ItemsByName(items: seq<Item>): (r: map<string, Item>)
    ensures forall i :: 0 <= i < |items| ==> items[i].uniqueName in r
    ensures forall k :: k in r ==> r[k].uniqueName == k && r[k] in items
  {
    if |items| == 0 then map[]
    else
      var p := items[..|items| - 1];
      assert forall i :: 0 <= i < |p| ==> p[i] == items[i];
      ItemsByName(p)[items[|items| - 1].uniqueName := items[|items| - 1]]
  }

  /** The entry of each name is the last item bearing it. */
  lemma {:induction false} ItemsByNameLastWins(items: seq<Item>, i: int)
    requires 0 <= i < |items| && IsLastOfName(items, i)
    ensures ItemsByName(items)[items[i].uniqueName] == items[i]
  {
    var n := |items|;
    var p := items[..n - 1];
    if i < n - 1 {
      LastOfNamePrefix(items, i);
      ItemsByNameLastWins(p, i);
      assert ItemsByName(items)[items[i].uniqueName] == ItemsByName(p)[items[i].uniqueName];
    }
  }

  /** The seeded state is the seed of each indexed item: the reducer's initial
      state and the `itemsByName` index agree on which item owns a name. */
  lemma {:induction false} InitialStateMatchesIndex(items: seq<Item>)
    ensures InitialState(items) == map k | k in ItemsByName(items) :: SeedProgress(ItemsByName(items)[k])
  {
    if |items| > 0 {
      InitialStateMatchesIndex(items[..|items| - 1]);
    }
  }
}
