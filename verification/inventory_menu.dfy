/** The "Inventory" sub-menu of a variation's actions menu, as its tests pin it
    down: the patch each inventory action hands to `onChange` for one
    variation. The numeric prompts are read with `Number(value)`. */
module InventoryMenu {
  import opened Wrappers
  import opened Variations

  datatype InventoryAction =
    | UpdateStock
    | ToggleTrackQuantity
    | SetInStock
    | SetOutOfStock
    | SetOnBackorder
    | EditLowStockThreshold

  /** The actions that ask for a value first. */
  predicate Prompts(a: InventoryAction) {
    a == UpdateStock || a == EditLowStockThreshold
  }

  /** The status an action sets, for the three status actions. */
  function StatusOf(a: InventoryAction): Option<StockStatus> {
    match a
    case SetInStock => Some(InStock)
    case SetOutOfStock => Some(OutOfStock)
    case SetOnBackorder => Some(OnBackorder)
    case _ => None
  }

  /** The patch issued by action `a` on variation `v`. `prompt` is the answer
      to the prompt (`None` when it was cancelled) and is read only by the
      actions that prompt. `None` means `onChange` is not called. */
  function InventoryPatch(parse: NumberParser, a: InventoryAction, v: Variation, prompt: Option<string>): (r: Option<Patch>)
    ensures Prompts(a) ==> (r.None? <==> prompt.None?)
    ensures !Prompts(a) ==> r.Some?
    ensures r.Some? ==> ManageStock in r.value && r.value[ManageStock].Flag?
    ensures r.Some? ==>
      (r.value[ManageStock] == Flag(true) <==> Prompts(a) || (a == ToggleTrackQuantity && !v.manageStock))
    ensures StatusOf(a).Some? ==>
      r.value.Keys == {StockStatusField, ManageStock} && r.value[StockStatusField] == Status(StatusOf(a).value)
    ensures a == ToggleTrackQuantity ==> r.value.Keys == {ManageStock}
    ensures Prompts(a) && prompt.Some? ==>
      var key := if a == UpdateStock then StockQuantity else LowStockAmount;
      r.value.Keys == {key, ManageStock} && r.value[key] == Number(parse(prompt.value))
  {
    match a
    case UpdateStock =>
      if prompt.None? then None
      else Some(map[StockQuantity := Number(parse(prompt.value)), ManageStock := Flag(true)])
    case EditLowStockThreshold =>
      if prompt.None? then None
      else Some(map[LowStockAmount := Number(parse(prompt.value)), ManageStock := Flag(true)])
    case ToggleTrackQuantity => Some(map[ManageStock := Flag(!v.manageStock)])
    case SetInStock => Some(map[StockStatusField := Status(InStock), ManageStock := Flag(false)])
    case SetOutOfStock => Some(map[StockStatusField := Status(OutOfStock), ManageStock := Flag(false)])
    case SetOnBackorder => Some(map[StockStatusField := Status(OnBackorder), ManageStock := Flag(false)])
  }

  /** How the store merges an inventory patch into a variation: the keys
      present overwrite, every other field keeps its value. */
  function ApplyPatch(v: Variation, p: Patch): (w: Variation)
    ensures w.id == v.id && w.regularPrice == v.regularPrice && w.salePrice == v.salePrice
    ensures ManageStock !in p ==> w.manageStock == v.manageStock
    ensures StockStatusField !in p ==> w.stockStatus == v.stockStatus
    ensures StockQuantity !in p ==> w.stockQuantity == v.stockQuantity
    ensures LowStockAmount !in p ==> w.lowStockAmount == v.lowStockAmount
    ensures ManageStock in p && p[ManageStock].Flag? ==> w.manageStock == p[ManageStock].flag
    ensures StockStatusField in p && p[StockStatusField].Status? ==> w.stockStatus == p[StockStatusField].status
    ensures StockQuantity in p && p[StockQuantity].Number? ==> w.stockQuantity == Some(p[StockQuantity].n)
    ensures LowStockAmount in p && p[LowStockAmount].Number? ==> w.lowStockAmount == Some(p[LowStockAmount].n)
  {
    v.(
      manageStock :=
        if ManageStock in p && p[ManageStock].Flag? then p[ManageStock].flag else v.manageStock,
      stockStatus :=
        if StockStatusField in p && p[StockStatusField].Status? then p[StockStatusField].status else v.stockStatus,
      stockQuantity :=
        if StockQuantity in p && p[StockQuantity].Number? then Some(p[StockQuantity].n) else v.stockQuantity,
      lowStockAmount :=
        if LowStockAmount in p && p[LowStockAmount].Number? then Some(p[LowStockAmount].n) else v.lowStockAmount)
  }

  /** Toggling "track quantity" flips `manage_stock` and changes nothing else;
      toggling twice restores the variation. */
  lemma ToggleTwiceRestores(parse: NumberParser, v: Variation)
    ensures
      var once := ApplyPatch(v, InventoryPatch(parse, ToggleTrackQuantity, v, None).value);
      var twice := ApplyPatch(once, InventoryPatch(parse, ToggleTrackQuantity, once, None).value);
      once == v.(manageStock := !v.manageStock) && twice == v
  {
  }

  /** A status action sets that status and turns stock tracking off. */
  lemma StatusActionSetsStatus(parse: NumberParser, a: InventoryAction, v: Variation)
    requires StatusOf(a).Some?
    ensures
      var w := ApplyPatch(v, InventoryPatch(parse, a, v, None).value);
      w == v.(stockStatus := StatusOf(a).value, manageStock := false)
  {
  }

  /** An answered numeric prompt stores the number read from the answer and
      turns stock tracking on; a cancelled one leaves the variation unchanged. */
  lemma PromptedActionStoresNumber(parse: NumberParser, a: InventoryAction, v: Variation, prompt: Option<string>)
    requires Prompts(a)
    ensures prompt.None? ==> InventoryPatch(parse, a, v, prompt).None?
    ensures prompt.Some? ==>
      var p := InventoryPatch(parse, a, v, prompt).value;
      && Id !in p && RegularPrice !in p && SalePrice !in p
      && DateOnSaleFrom !in p && DateOnSaleTo !in p && StockStatusField !in p
    ensures prompt.Some? ==>
      var w := ApplyPatch(v, InventoryPatch(parse, a, v, prompt).value);
      && w.manageStock
      && (a == UpdateStock ==> w == v.(stockQuantity := Some(parse(prompt.value)), manageStock := true))
      && (a == EditLowStockThreshold ==> w == v.(lowStockAmount := Some(parse(prompt.value)), manageStock := true))
  {
  }

  /** The variation the menu's tests render: id 10, stock not tracked. */
  function TestVariation(): Variation {
    Variation(10, "", "", false, InStock, None, None)
  }

  /** The patches the menu's tests expect, with `Number('10')` and
      `Number('7')` read as 10 and 7. */
  lemma TestedPatches(parse: NumberParser)
    requires parse("10") == Real(10.0) && parse("7") == Real(7.0)
    ensures InventoryPatch(parse, UpdateStock, TestVariation(), Some("10"))
         == Some(map[StockQuantity := Number(Real(10.0)), ManageStock := Flag(true)])
    ensures InventoryPatch(parse, UpdateStock, TestVariation(), None).None?
    ensures InventoryPatch(parse, ToggleTrackQuantity, TestVariation(), None)
         == Some(map[ManageStock := Flag(true)])
    ensures InventoryPatch(parse, ToggleTrackQuantity, TestVariation().(manageStock := true), None)
         == Some(map[ManageStock := Flag(false)])
    ensures InventoryPatch(parse, SetInStock, TestVariation(), None)
         == Some(map[StockStatusField := Status(InStock), ManageStock := Flag(false)])
    ensures InventoryPatch(parse, SetOutOfStock, TestVariation(), None)
         == Some(map[StockStatusField := Status(OutOfStock), ManageStock := Flag(false)])
    ensures InventoryPatch(parse, SetOnBackorder, TestVariation(), None)
         == Some(map[StockStatusField := Status(OnBackorder), ManageStock := Flag(false)])
    ensures InventoryPatch(parse, EditLowStockThreshold, TestVariation(), Some("7"))
         == Some(map[LowStockAmount := Number(Real(7.0)), ManageStock := Flag(true)])
  {
  }
}
