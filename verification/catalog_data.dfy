/** Catalog normalisation (api/data.ts): which API items the tracker keeps,
    how they are projected to the simplified records, and how duplicate
    components of one recipe are merged by summing their required counts. */
module CatalogData {
  import opened Wrappers
  import opened Strings
  import opened Seqs
  import opened Catalog

  // ---------------------------------------------------------------------
  // Required totals

  /** What component `c` contributes to the required total of `key`. */
  function CountFor(c: Component, key: string): int {
    if c.uniqueName == key then c.itemCount else 0
  }

  /** The summed `itemCount` of the components bearing `key`. */
  function SumFor(cs: seq<Component>, key: string): int {
    if |cs| == 0 then 0 else SumFor(cs[..|cs| - 1], key) + CountFor(cs[|cs| - 1], key)
  }

  /** The summed `itemCount` of all components of the list. */
  function Total(cs: seq<Component>): int {
    if |cs| == 0 then 0 else Total(cs[..|cs| - 1]) + cs[|cs| - 1].itemCount
  }

  lemma {:induction false} SumForAbsent(cs: seq<Component>, key: string)
    requires key !in NameSet(cs)
    ensures SumFor(cs, key) == 0
  {
    if |cs| > 0 {
      assert NameSet(cs[..|cs| - 1]) <= NameSet(cs) by {
        forall k | k in NameSet(cs[..|cs| - 1]) ensures k in NameSet(cs) {
          var i :| 0 <= i < |cs| - 1 && cs[..|cs| - 1][i].uniqueName == k;
          assert cs[i].uniqueName == k;
        }
      }
      SumForAbsent(cs[..|cs| - 1], key);
    }
  }

  /** Replacing one component changes each required total by the difference. */
  lemma {:induction false} SumForUpdate(cs: seq<Component>, i: int, c: Component, key: string)
    requires 0 <= i < |cs|
    ensures SumFor(cs[i := c], key) == SumFor(cs, key) - CountFor(cs[i], key) + CountFor(c, key)
  {
    var n := |cs|;
    if i < n - 1 {
      assert cs[i := c][..n - 1] == cs[..n - 1][i := c];
      SumForUpdate(cs[..n - 1], i, c, key);
    } else {
      assert cs[i := c][..n - 1] == cs[..n - 1];
    }
  }

  lemma {:induction false} TotalUpdate(cs: seq<Component>, i: int, c: Component)
    requires 0 <= i < |cs|
    ensures Total(cs[i := c]) == Total(cs) - cs[i].itemCount + c.itemCount
  {
    var n := |cs|;
    if i < n - 1 {
      assert cs[i := c][..n - 1] == cs[..n - 1][i := c];
      TotalUpdate(cs[..n - 1], i, c);
    } else {
      assert cs[i := c][..n - 1] == cs[..n - 1];
    }
  }

  /** In a list with distinct names, the required total of a listed name is
      the `itemCount` of its one component. */
  lemma {:induction false} SumForDistinct(cs: seq<Component>, i: int)
    requires DistinctNames(cs)
    requires 0 <= i < |cs|
    ensures SumFor(cs, cs[i].uniqueName) == cs[i].itemCount
  {
    var n := |cs|;
    var p := cs[..n - 1];
    if i < n - 1 {
      assert p[i] == cs[i];
      SumForDistinct(p, i);
    } else {
      assert cs[i].uniqueName !in NameSet(p);
      SumForAbsent(p, cs[i].uniqueName);
    }
  }

  // ---------------------------------------------------------------------
  // Merging duplicate components

  /** One step of the merging reduce: add `c`'s count to the first component
      already bearing its name, or append `c` when there is none. */
  function MergeStep(acc: seq<Component>, c: Component): seq<Component> {
    match FindName(acc, c.uniqueName)
    case Some(i) => acc[i := acc[i].(itemCount := acc[i].itemCount + c.itemCount)]
    case None => acc + [c]
  }

  /** The two shapes of a merging step: an update in place when the name is
      already present, an append otherwise. */
  lemma MergeStepShape(acc: seq<Component>, c: Component)
    ensures FindName(acc, c.uniqueName).Some? ==>
      var i := FindName(acc, c.uniqueName).value;
      MergeStep(acc, c) == acc[i := acc[i].(itemCount := acc[i].itemCount + c.itemCount)]
    ensures FindName(acc, c.uniqueName).None? ==> MergeStep(acc, c) == acc + [c]
  {
  }

  /** A merging step never introduces a second component of the same name. */
  lemma MergeStepDistinct(acc: seq<Component>, c: Component)
    requires DistinctNames(acc)
    ensures DistinctNames(MergeStep(acc, c))
  {
  }

  lemma MergeStepNames(acc: seq<Component>, c: Component)
    ensures NameSet(MergeStep(acc, c)) == NameSet(acc) + {c.uniqueName}
  {
    var r := MergeStep(acc, c);
    FindNameFound(acc, c.uniqueName);
    match FindName(acc, c.uniqueName)
    case Some(i) =>
      assert forall j :: 0 <= j < |r| ==> r[j].uniqueName == acc[j].uniqueName;
    case None =>
      assert r[|acc|].uniqueName == c.uniqueName;
      assert forall j :: 0 <= j < |acc| ==> r[j] == acc[j];
  }

  /** The merged component list of one item: one component per distinct name,
      covering exactly the names of the input. */
  function MergeComponents(cs: seq<Component>): (r: seq<Component>)
    ensures DistinctNames(r)
  {
    if |cs| == 0 then []
    else
      var acc := MergeComponents(cs[..|cs| - 1]);
      MergeStepDistinct(acc, cs[|cs| - 1]);
      MergeStep(acc, cs[|cs| - 1])
  }

  /** Merging neither loses nor invents a component name. */
  lemma {:induction false} MergeNames(cs: seq<Component>)
    ensures NameSet(MergeComponents(cs)) == NameSet(cs)
  {
    if |cs| > 0 {
      var p := cs[..|cs| - 1];
      MergeNames(p);
      MergeStepNames(MergeComponents(p), cs[|cs| - 1]);
      assert NameSet(cs) == NameSet(p) + {cs[|cs| - 1].uniqueName} by {
        assert forall i :: 0 <= i < |p| ==> p[i] == cs[i];
      }
    }
  }

  /** One merging step adds `c`'s count to the total of `c`'s name only. */
  lemma MergeStepSums(acc: seq<Component>, c: Component, key: string)
    ensures SumFor(MergeStep(acc, c), key) == SumFor(acc, key) + CountFor(c, key)
  {
    match FindName(acc, c.uniqueName)
    case Some(i) =>
      SumForUpdate(acc, i, acc[i].(itemCount := acc[i].itemCount + c.itemCount), key);
    case None =>
      assert (acc + [c])[..|acc|] == acc;
  }

  /** One merging step adds `c`'s count to the grand total. */
  lemma MergeStepTotal(acc: seq<Component>, c: Component)
    ensures Total(MergeStep(acc, c)) == Total(acc) + c.itemCount
  {
    match FindName(acc, c.uniqueName)
    case Some(i) =>
      TotalUpdate(acc, i, acc[i].(itemCount := acc[i].itemCount + c.itemCount));
    case None =>
      assert (acc + [c])[..|acc|] == acc;
  }

  /** Merging preserves every name's required total. */
  lemma {:induction false} MergePreservesSums(cs: seq<Component>, key: string)
    ensures SumFor(MergeComponents(cs), key) == SumFor(cs, key)
  {
    if |cs| > 0 {
      var p := cs[..|cs| - 1];
      MergePreservesSums(p, key);
      MergeStepSums(MergeComponents(p), cs[|cs| - 1], key);
    }
  }

  /** Merging preserves the grand total of required counts. */
  lemma {:induction false} MergePreservesTotal(cs: seq<Component>)
    ensures Total(MergeComponents(cs)) == Total(cs)
  {
    if |cs| > 0 {
      var p := cs[..|cs| - 1];
      MergePreservesTotal(p);
      MergeStepTotal(MergeComponents(p), cs[|cs| - 1]);
    }
  }

  /** Each component of `r` is the FIRST component of `cs` bearing its name,
      with `itemCount` replaced by that name's required total in `cs`. */
  predicate FirstOccurrenceForm(r: seq<Component>, cs: seq<Component>) {
    forall i :: 0 <= i < |r| ==>
      FindName(cs, r[i].uniqueName).Some? &&
      r[i] == cs[FindName(cs, r[i].uniqueName).value].(itemCount := SumFor(cs, r[i].uniqueName))
  }

  /** The components of `r` appear in the order in which their names first
      occur in `cs`. */
  predicate FirstOccurrenceOrder(r: seq<Component>, cs: seq<Component>) {
    forall i, j :: 0 <= i < j < |r| ==> FirstOccursBefore(cs, r[i].uniqueName, r[j].uniqueName)
  }

  /** Both names occur in `cs`, and `a` first occurs before `b` does. */
  predicate FirstOccursBefore(cs: seq<Component>, a: string, b: string) {
    FindName(cs, a).Some? && FindName(cs, b).Some? && FindName(cs, a).value < FindName(cs, b).value
  }

  /** How the first occurrence and the required total of a name change when
      one component is appended to the input. */
  lemma AppendFacts(p: seq<Component>, c: Component, key: string)
    ensures FindName(p + [c], key) ==
      if FindName(p, key).Some? then FindName(p, key)
      else if c.uniqueName == key then Some(|p|)
      else None
    ensures SumFor(p + [c], key) == SumFor(p, key) + CountFor(c, key)
  {
    FindNameAppend(p, c, key);
    assert (p + [c])[..|p|] == p;
  }

  /** A merging step that adds to an existing component keeps the
      first-occurrence form. */
  lemma MergeStepFoundForm(acc: seq<Component>, p: seq<Component>, c: Component, idx: nat)
    requires DistinctNames(acc)
    requires FirstOccurrenceForm(acc, p)
    requires FindName(acc, c.uniqueName) == Some(idx)
    ensures FirstOccurrenceForm(MergeStep(acc, c), p + [c])
  {
    var cs := p + [c];
    var r := MergeStep(acc, c);
    MergeStepShape(acc, c);
    forall i | 0 <= i < |r|
      ensures FindName(cs, r[i].uniqueName).Some?
      ensures r[i] == cs[FindName(cs, r[i].uniqueName).value].(itemCount := SumFor(cs, r[i].uniqueName))
    {
      var k := acc[i].uniqueName;
      AppendFacts(p, c, k);
      var f := FindName(p, k).value;
      assert acc[i] == p[f].(itemCount := SumFor(p, k));
      assert cs[f] == p[f];
      if i == idx {
        assert r[i] == acc[i].(itemCount := SumFor(p, k) + CountFor(c, k));
      } else {
        assert r[i] == acc[i];
      }
    }
  }

  /** A merging step that adds to an existing component keeps the order. */
  lemma MergeStepFoundOrder(acc: seq<Component>, p: seq<Component>, c: Component, idx: nat)
    requires FirstOccurrenceOrder(acc, p)
    requires FindName(acc, c.uniqueName) == Some(idx)
    ensures FirstOccurrenceOrder(MergeStep(acc, c), p + [c])
  {
    var cs := p + [c];
    var r := MergeStep(acc, c);
    MergeStepShape(acc, c);
    forall i, j | 0 <= i < j < |r|
      ensures FirstOccursBefore(cs, r[i].uniqueName, r[j].uniqueName)
    {
      var a, b := acc[i].uniqueName, acc[j].uniqueName;
      assert r[i].uniqueName == a && r[j].uniqueName == b;
      assert FirstOccursBefore(p, a, b);
      FindNameAppend(p, c, a);
      FindNameAppend(p, c, b);
    }
  }

  /** A merging step that appends a component of a new name keeps the
      first-occurrence form. */
  lemma MergeStepNewForm(acc: seq<Component>, p: seq<Component>, c: Component)
    requires FirstOccurrenceForm(acc, p)
    requires FindName(acc, c.uniqueName).None? && FindName(p, c.uniqueName).None?
    ensures FirstOccurrenceForm(MergeStep(acc, c), p + [c])
  {
    var cs := p + [c];
    var r := MergeStep(acc, c);
    MergeStepShape(acc, c);
    SumForAbsent(p, c.uniqueName);
    AppendFacts(p, c, c.uniqueName);
    forall i | 0 <= i < |r|
      ensures FindName(cs, r[i].uniqueName).Some?
      ensures r[i] == cs[FindName(cs, r[i].uniqueName).value].(itemCount := SumFor(cs, r[i].uniqueName))
    {
      if i < |acc| {
        var k := acc[i].uniqueName;
        AppendFacts(p, c, k);
        assert r[i] == acc[i];
        assert cs[FindName(p, k).value] == p[FindName(p, k).value];
      }
    }
  }

  /** A merging step that appends a component of a new name keeps the order:
      the new name first occurs after every earlier one. */
  lemma MergeStepNewOrder(acc: seq<Component>, p: seq<Component>, c: Component)
    requires FirstOccurrenceForm(acc, p) && FirstOccurrenceOrder(acc, p)
    requires FindName(acc, c.uniqueName).None? && FindName(p, c.uniqueName).None?
    ensures FirstOccurrenceOrder(MergeStep(acc, c), p + [c])
  {
    var cs := p + [c];
    var r := MergeStep(acc, c);
    MergeStepShape(acc, c);
    AppendFacts(p, c, c.uniqueName);
    forall i, j | 0 <= i < j < |r|
      ensures FirstOccursBefore(cs, r[i].uniqueName, r[j].uniqueName)
    {
      assert r[i] == acc[i];
      AppendFacts(p, c, acc[i].uniqueName);
      if j < |acc| {
        assert r[j] == acc[j];
        AppendFacts(p, c, acc[j].uniqueName);
      }
    }
  }

  /** Each merged component is the FIRST input component bearing its name,
      with `itemCount` replaced by the name's required total; and the merged
      components appear in the order of their names' first occurrences. */
  lemma {:induction false} MergeCharacterisation(cs: seq<Component>)
    ensures FirstOccurrenceForm(MergeComponents(cs), cs)
    ensures FirstOccurrenceOrder(MergeComponents(cs), cs)
  {
    if |cs| > 0 {
      var p, c := cs[..|cs| - 1], cs[|cs| - 1];
      assert cs == p + [c];
      var acc := MergeComponents(p);
      MergeCharacterisation(p);
      MergeNames(p);
      match FindName(acc, c.uniqueName)
      case Some(idx) =>
        MergeStepFoundForm(acc, p, c, idx);
        MergeStepFoundOrder(acc, p, c, idx);
      case None =>
        FindNameFound(acc, c.uniqueName);
        FindNameFound(p, c.uniqueName);
        MergeStepNewForm(acc, p, c);
        MergeStepNewOrder(acc, p, c);
    }
  }

  /** After merging, the one component bearing a name requires that name's
      total over the input list. */
  lemma MergedCountIsSum(cs: seq<Component>, i: int)
    requires 0 <= i < |MergeComponents(cs)|
    ensures MergeComponents(cs)[i].itemCount == SumFor(cs, MergeComponents(cs)[i].uniqueName)
  {
    var r := MergeComponents(cs);
    SumForDistinct(r, i);
    MergePreservesSums(cs, r[i].uniqueName);
  }

  /** A worked merge: two entries of "c" needing 3 and 2 become one entry of
      "c" needing 5, keeping the first entry's other fields. */
  lemma DuplicateScenario()
    ensures MergeComponents([Component("c", 3, "C", None), Component("c", 2, "C2", None)])
      == [Component("c", 5, "C", None)]
  {
    var c3, c2 := Component("c", 3, "C", None), Component("c", 2, "C2", None);
    assert [c3, c2][..1] == [c3];
    assert MergeComponents([c3]) == [c3] by {
      assert [c3][..0] == [];
    }
  }

  /** Merging preserves the required total of every name at once. */
  lemma MergePreservesAllSums(cs: seq<Component>)
    ensures forall key :: SumFor(MergeComponents(cs), key) == SumFor(cs, key)
  {
    forall key {
      MergePreservesSums(cs, key);
    }
  }

  /** `mergeDuplicateComponents` applied to one item. */
  function MergeItem(item: Item): (r: Item)
    ensures r.(components := item.components) == item
    ensures item.components.None? ==> r == item
    ensures item.components.Some? ==>
      r.components.Some? && DistinctNames(r.components.value) &&
      NameSet(r.components.value) == NameSet(item.components.value)
    ensures item.components.Some? ==>
      forall key :: SumFor(r.components.value, key) == SumFor(item.components.value, key)
  {
    match item.components
    case None => item
    case Some(cs) =>
      MergeNames(cs);
      MergePreservesAllSums(cs);
      item.(components := Some(MergeComponents(cs)))
  }

  /** `mergeDuplicateComponents`: every item keeps its position and every field
      but `components`; every component list ends up with distinct names. */
  function MergeDuplicateComponents(items: seq<Item>): (r: seq<Item>)
    ensures |r| == |items|
    ensures forall i :: 0 <= i < |items| ==> r[i].(components := items[i].components) == items[i]
    ensures forall i :: 0 <= i < |items| && items[i].components.None? ==> r[i] == items[i]
    ensures forall i :: 0 <= i < |items| && items[i].components.Some? ==>
      r[i].components.Some? && DistinctNames(r[i].components.value) &&
      NameSet(r[i].components.value) == NameSet(items[i].components.value)
    ensures forall i, key :: 0 <= i < |items| && items[i].components.Some? ==>
      SumFor(r[i].components.value, key) == SumFor(items[i].components.value, key)
  {
    MapSeq(items, MergeItem)
  }

  // ---------------------------------------------------------------------
  // Which API items are kept

  /** The "normal item" rule: an allowed category, not a companion part, and
      not excluded from the codex. */
  predicate IsNormalItem(raw: RawItem) {
    && raw.category in AllowedCategories
    && (if raw.category == "Pets" then raw.itemType != "Pet Resource" else true)
    && raw.excludeFromCodex.GetOr(false) == false
  }

  /** The "amp" rule: a Misc item of type Amp whose name mentions a prism. */
  predicate IsPrismAmp(raw: RawItem) {
    raw.category == "Misc" && raw.itemType == "Amp" && Contains(ToLower(raw.name), "prism")
  }

  /** `_usefulItem`. */
  function UsefulItem(raw: RawItem): (r: bool)
    ensures raw.category !in AllowedCategories && raw.category != "Misc" ==> !r
    ensures raw.category == "Pets" && raw.itemType == "Pet Resource" ==> !r
    ensures raw.excludeFromCodex == Some(true) && raw.category != "Misc" ==> !r
    ensures raw.category in AllowedCategories && raw.category != "Pets"
      && raw.excludeFromCodex != Some(true)
      ==> r
    ensures raw.category == "Pets" && raw.itemType != "Pet Resource"
      && raw.excludeFromCodex != Some(true)
      ==> r
    ensures raw.category == "Misc" ==>
      (r <==> raw.itemType == "Amp" && Contains(ToLower(raw.name), "prism"))
  {
    if IsNormalItem(raw) then true
    else if IsPrismAmp(raw) then true
    else false
  }

  /** `pick(component, ['uniqueName', 'itemCount', 'name', 'imageName'])`. */
  function SimplifyComponent(rc: RawComponent): (r: Component)
    ensures r.uniqueName == rc.uniqueName && r.itemCount == rc.itemCount
    ensures r.name == rc.name && r.imageName == rc.imageName
  {
    Component(rc.uniqueName, rc.itemCount, rc.name, rc.imageName)
  }

  /** `_simplifyItem`: keeps the identifying and display fields, and the
      components one for one. */
  function SimplifyItem(raw: RawItem): (r: Item)
    ensures r.uniqueName == raw.uniqueName && r.name == raw.name && r.category == raw.category
    ensures r.imageName == raw.imageName && r.wikiaUrl == raw.wikiaUrl
    ensures r.components.Some? <==> raw.components.Some?
    ensures raw.components.Some? ==>
      |r.components.value| == |raw.components.value| &&
      forall i :: 0 <= i < |raw.components.value| ==>
        r.components.value[i] == SimplifyComponent(raw.components.value[i])
  {
    var base := Item(raw.uniqueName, raw.name, raw.category, raw.imageName, raw.wikiaUrl, None);
    match raw.components
    case None => base
    case Some(rcs) => base.(components := Some(MapSeq(rcs, SimplifyComponent)))
  }

  /** `filterUnusedData`: the useful items, simplified, in their original
      order; nothing else. */
  function FilterUnusedData(raws: seq<RawItem>): (r: seq<Item>)
    ensures |r| <= |raws|
    ensures IsSubsequence(r, MapSeq(raws, SimplifyItem))
    ensures forall raw :: raw in raws && UsefulItem(raw) ==> SimplifyItem(raw) in r
    ensures forall x :: x in r ==> exists raw :: raw in raws && UsefulItem(raw) && x == SimplifyItem(raw)
    ensures exists kept ::
      && IsSubsequence(kept, raws)
      && (forall raw :: multiset(kept)[raw] == if UsefulItem(raw) then multiset(raws)[raw] else 0)
      && r == MapSeq(kept, SimplifyItem)
  {
    FilterUnusedDataFacts(raws);
    KeepsUseful(raws);
    KeepsOnlyUseful(raws);
    MapSeq(Filter(raws, UsefulItem), SimplifyItem)
  }

  /** The facts behind `FilterUnusedData`'s contract, stated of its result. */
  lemma FilterUnusedDataFacts(raws: seq<RawItem>)
    ensures var kept := Filter(raws, UsefulItem);
      && IsSubsequence(MapSeq(kept, SimplifyItem), MapSeq(raws, SimplifyItem))
      && IsSubsequence(kept, raws)
      && (forall raw :: multiset(kept)[raw] == if UsefulItem(raw) then multiset(raws)[raw] else 0)
  {
    SubsequenceMap(Filter(raws, UsefulItem), raws, SimplifyItem);
  }

  /** Every useful item appears, simplified, in the output. */
  lemma KeepsUseful(raws: seq<RawItem>)
    ensures forall raw :: raw in raws && UsefulItem(raw) ==>
      SimplifyItem(raw) in MapSeq(Filter(raws, UsefulItem), SimplifyItem)
  {
    var kept := Filter(raws, UsefulItem);
    var m := MapSeq(kept, SimplifyItem);
    forall raw | raw in raws && UsefulItem(raw) ensures SimplifyItem(raw) in m {
      FilterMembership(raws, UsefulItem, raw);
      var i :| 0 <= i < |kept| && kept[i] == raw;
      assert m[i] == SimplifyItem(raw);
    }
  }

  /** Every output item is the simplification of a useful input item. */
  lemma KeepsOnlyUseful(raws: seq<RawItem>)
    ensures forall x :: x in MapSeq(Filter(raws, UsefulItem), SimplifyItem) ==>
      exists raw :: raw in raws && UsefulItem(raw) && x == SimplifyItem(raw)
  {
    var kept := Filter(raws, UsefulItem);
    var m := MapSeq(kept, SimplifyItem);
    forall x | x in m ensures exists raw :: raw in raws && UsefulItem(raw) && x == SimplifyItem(raw) {
      var i :| 0 <= i < |m| && m[i] == x;
      FilterMembership(raws, UsefulItem, kept[i]);
    }
  }

  /** The pure part of `fetchItems`: filter and simplify the API's items, then
      merge duplicate components. Every resulting recipe lists each component
      name once. */
  function CatalogFromApi(raws: seq<RawItem>): (r: seq<Item>)
    ensures var simplified := FilterUnusedData(raws);
      && |r| == |simplified|
      && (forall i :: 0 <= i < |r| ==> r[i].(components := simplified[i].components) == simplified[i])
      && (forall i :: 0 <= i < |r| ==> (r[i].components.Some? <==> simplified[i].components.Some?))
      && (forall i, key :: 0 <= i < |r| && r[i].components.Some? ==>
            SumFor(r[i].components.value, key) == SumFor(simplified[i].components.value, key))
    ensures forall i :: 0 <= i < |r| && r[i].components.Some? ==> DistinctNames(r[i].components.value)
  {
    MergeDuplicateComponents(FilterUnusedData(raws))
  }
}
