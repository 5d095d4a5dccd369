/** The rules of one component tile (components/ProgressItem/ComponentPreview.tsx):
    the count clamp applied before dispatching, the full/empty click toggle,
    the tile colour and the hidden numeric input of single-count components. */
module ComponentPreview {
  import opened Catalog
  import opened StateContext

  /** `Math.min(itemCount, Math.max(0, value))`: the count actually dispatched. */
  function Clamp(value: int, itemCount: int): (r: int)
    ensures r <= itemCount
    ensures itemCount >= 0 ==> 0 <= r
    ensures 0 <= value <= itemCount ==> r == value
    ensures value >= itemCount ==> r == itemCount
    ensures value <= 0 <= itemCount ==> r == 0
  {
    var atLeastZero := if value < 0 then 0 else value;
    if itemCount < atLeastZero then itemCount else atLeastZero
  }

  /** `setValue`: a `SetComponentCount` for the tile's own item and component,
      carrying the clamped count. */
  function SetValue(item: Item, component: Component, value: int): (a: Action)
    ensures a.SetComponentCount? && a.item == item && a.component == component
    ensures component.itemCount >= 0 ==> 0 <= a.count <= component.itemCount
    ensures 0 <= value <= component.itemCount ==> a.count == value
  {
    SetComponentCount(item, component, Clamp(value, component.itemCount))
  }

  /** The value a click asks for: 0 when the component is full, its
      `itemCount` otherwise. */
  function ClickValue(value: int, itemCount: int): int {
    if value != itemCount then itemCount else 0
  }

  /** A click on the tile: empties a full component and fills any other. */
  function Click(item: Item, component: Component, value: int): (a: Action)
    ensures a.SetComponentCount? && a.item == item && a.component == component
    ensures component.itemCount >= 0 && value == component.itemCount ==> a.count == 0
    ensures component.itemCount >= 0 && value != component.itemCount ==> a.count == component.itemCount
  {
    SetValue(item, component, ClickValue(value, component.itemCount))
  }

  /** Two clicks bring a full component back to full, and any other count to
      empty. */
  lemma ClickTwice(item: Item, component: Component, value: int)
    requires component.itemCount >= 0
    ensures var once := Click(item, component, value).count;
      Click(item, component, once).count == if value == component.itemCount then component.itemCount else 0
  {
  }

  /** The three tile colours. */
  datatype Swatch = Full | Empty | Partial

  /** The tile colour: full when the count equals `itemCount` (taking
      precedence), else empty at 0, else partial. */
  function SwatchOf(value: int, itemCount: int): (r: Swatch)
    ensures r == Full <==> value == itemCount
    ensures r == Empty <==> value == 0 && value != itemCount
    ensures r == Partial <==> value != itemCount && value != 0
  {
    if value == itemCount then Full
    else if value == 0 then Empty
    else Partial
  }

  /** The CSS class of each colour. */
  function SwatchClass(s: Swatch): string {
    match s
    case Full => "bg-lime-200"
    case Empty => "bg-red-200"
    case Partial => "bg-amber-200"
  }

  /** The three colours have three different classes. */
  lemma SwatchClassDistinct(a: Swatch, b: Swatch)
    requires a != b
    ensures SwatchClass(a) != SwatchClass(b)
  {
  }

  /** After a click the tile is never partial: it shows full or empty. */
  lemma ClickNeverPartial(item: Item, component: Component, value: int)
    ensures SwatchOf(Click(item, component, value).count, component.itemCount) != Partial
  {
  }

  /** `singleItem`: the component is needed exactly once, and the numeric
      input is hidden. */
  function SingleItem(component: Component): bool {
    component.itemCount == 1
  }

  /** A single-count component can only be dispatched as empty or full, which
      is why its numeric input can be hidden and the click suffices. */
  lemma SingleItemTwoStates(item: Item, component: Component, value: int)
    requires SingleItem(component)
    ensures SetValue(item, component, value).count == 0 || SetValue(item, component, value).count == 1
  {
  }
}
