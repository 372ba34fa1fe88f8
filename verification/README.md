# WooCommerce product-editor and store-customizer decision logic, in Dafny

This project models four small pieces of decision logic from the WooCommerce
admin front end. Each is written as pure functions over immutable data, and
the calls the UI makes are returned as values.

- **The "add attributes" modal** (`attribute_modal.dfy`). The form holds a
  list of attribute drafts. The model covers:
  - appending a row ("+ Add another") and removing a row (the trash button);
  - the close guard, which asks for confirmation when terms are selected;
  - the disabled state of the Add and trash buttons;
  - the ids the attribute picker ignores;
  - the terms auto-selection (`'all'` or `'first'`) applied once a picked
    attribute's terms have been fetched;
  - the filter-and-normalise walk that turns the filled-out drafts into the
    attributes handed to `onAdd`.
- **The variations "Pricing" menu** (`pricing_menu.dfy`, over the shared
  types in `variations.dfy`):
  - `addFixedOrPercentage`, a total case split on percentage or fixed
    operand and numeric or non-numeric base;
  - the partial-update patches each menu item hands to `onChange`, for one
    variation or a bulk selection;
  - the two-prompt "Schedule sale".
- **The variations "Inventory" menu** (`inventory_menu.dfy`). Each inventory
  action produces the patch that the actions menu's tests expect.
- **The logo screen of the store customizer** (`logo_sidebar.dfy`). It
  decides which edits are issued, and in which order, when a logo is picked
  or dropped and when its settings are toggled. There are three kinds of
  edit: the block attribute `shouldSyncIcon` (and `isLink`, `width`), the
  site setting `site_icon`, and the site setting `site_logo`. It also
  derives the width, the resizable flag and the loading flag.

JavaScript's `Number(s)` is a parameter `parse: string -> Num`, where `Num` is
`NaN` or an exact `real`. Every statement about prices holds for any such
parser. A `None` prompt answer is a cancelled prompt. Patches are maps from
the JSON keys a patch may carry to their values. So "the patch holds only
`id` and `regular_price`" is a statement about the map's key set.

Four quirks of the source are kept as written:

- **Single-row remove.** With one row, remove writes the array `[null]` into
  the slot `attributes[index]`. The model keeps this as the row variant
  `NullArray`. Afterwards the Add button stays enabled, and pressing it
  throws while checking that row.
- **Cleared picker.** Clearing a row's attribute picker stores the falsy
  value itself (`undefined`). The model keeps this as the row variant
  `Cleared`. The Add button stays enabled, and pressing it throws on that row.
- **Holes after a late fetch.** When a picked attribute's terms arrive after
  rows were removed, the write may land past the end and leave empty slots.
  "Add" skips them, but "+ Add another" spreads the list and turns each one
  into `undefined`, on which "Add" then throws. The model keeps these as the
  row variant `Hole`.
- **Non-numeric base.** A fixed adjustment of a non-numeric price ignores
  the increase/decrease direction.

Percentage increase and decrease are not inverses. The model proves this
rather than hiding it.

## Model

| member | source | states |
|---|---|---|
| AttributeModal.AddAnother | packages/js/product-editor/src/components/attribute-control/new-attribute-modal.tsx:117-126 | "+ Add another" appends exactly one empty row at the end; the spread reads every existing slot, so rows stay in place and unchanged except that each hole becomes `undefined`; an array without holes is kept exactly |
| AttributeModal.FillHoles | packages/js/product-editor/src/components/attribute-control/new-attribute-modal.tsx:124 | the spread `[...values.attributes]` keeps the length, turns each hole into `undefined` and keeps every other slot; its result has no hole, and an array without holes is copied unchanged |
| AttributeModal.AddAnotherTurnsHolesIntoThrowingRows | packages/js/product-editor/src/components/attribute-control/new-attribute-modal.tsx:124 | a hole, which "Add" skips, becomes after "+ Add another" an `undefined` slot on which "Add" throws |
| AttributeModal.HasTermsOrOptions | packages/js/product-editor/src/components/attribute-control/new-attribute-modal.tsx:128-133 | an attribute has terms or options iff it has some term name or a non-empty options list |
| AttributeModal.IsGlobalAttribute | packages/js/product-editor/src/components/attribute-control/new-attribute-modal.tsx:135-137 | custom attributes are exactly those with id 0; every other id is a global attribute |
| AttributeModal.TermNames | packages/js/product-editor/src/components/attribute-control/new-attribute-modal.tsx:139-145 | `terms.map(term => term.name)`: as many names as terms, the k-th name being the k-th term's name |
| AttributeModal.MapTermsToOptions | packages/js/product-editor/src/components/attribute-control/new-attribute-modal.tsx:139-145 | undefined terms give no options; otherwise one option per term, the k-th being the k-th term's name |
| AttributeModal.GetOptions | packages/js/product-editor/src/components/attribute-control/new-attribute-modal.tsx:147-151 | a custom attribute (id 0) keeps its own options, defined or not; a global one gets its term names in order, or `[]` when its terms are undefined |
| AttributeModal.IsAttributeFilledOut | packages/js/product-editor/src/components/attribute-control/new-attribute-modal.tsx:153-161 | only a draft with a non-empty name is filled out; such a draft is filled out as soon as it has a term or an option, and not when it has neither |
| AttributeModal.GetVisibleOrTrue | packages/js/product-editor/src/components/attribute-control/new-attribute-modal.tsx:163-164 | the draft's own `visible` when defined, else the modal's default visibility |
| AttributeModal.Normalise | packages/js/product-editor/src/components/attribute-control/new-attribute-modal.tsx:135-151 | the attribute pushed for a filled-out draft: `visible` is the draft's own when defined, else the default visibility; a global attribute's options are its term names in order, or `[]` when terms are undefined; a custom attribute keeps its own options; every other field is copied unchanged |
| AttributeModal.Emitted | packages/js/product-editor/src/components/attribute-control/new-attribute-modal.tsx:166-177 | reference definition of what "Add" hands to `onAdd`: never more attributes than rows |
| AttributeModal.EmittedAreNamedAndVisible | packages/js/product-editor/src/components/attribute-control/new-attribute-modal.tsx:166-177 | every attribute handed to `onAdd` has `visible` defined and a non-empty name |
| AttributeModal.EmittedSelectsFilled | packages/js/product-editor/src/components/attribute-control/new-attribute-modal.tsx:153-177 | the attributes handed to `onAdd` are exactly the filled-out drafts (non-null, named, with terms or options), each normalised, at strictly increasing row positions, none skipped |
| AttributeModal.EmittedAppend | packages/js/product-editor/src/components/attribute-control/new-attribute-modal.tsx:168-176 | the walk keeps row order: what two consecutive blocks of rows emit is the concatenation of what each emits |
| AttributeModal.AddAnotherEmitsNothingNew | packages/js/product-editor/src/components/attribute-control/new-attribute-modal.tsx:124 | "+ Add another" changes nothing that "Add" emits: neither the appended empty row nor the holes turned into `undefined` are filled out |
| AttributeModal.EmittedFillHoles | packages/js/product-editor/src/components/attribute-control/new-attribute-modal.tsx:124-177 | reading the holes as `undefined` changes nothing that a completed walk emits, since neither is filled out |
| AttributeModal.OnAddingAttributes | packages/js/product-editor/src/components/attribute-control/new-attribute-modal.tsx:166-178 | the forEach walk calls `onAdd` iff no row is the `[null]` array or a cleared (`undefined`) slot, on each of which the name check throws, and then with exactly the reference emission |
| AttributeModal.KeepOthers | packages/js/product-editor/src/components/attribute-control/new-attribute-modal.tsx:194 | `filter((val, i) => i !== index)` compares each slot's own position with `index` and skips holes: the result is the non-hole rows before `index` followed by the non-hole rows after it, or all non-hole rows when `index` is out of range |
| AttributeModal.DropHolesMembers | packages/js/product-editor/src/components/attribute-control/new-attribute-modal.tsx:194 | a row is kept by the hole-skipping walk iff it occurs in the array and is not a hole |
| AttributeModal.DropHolesIsDense | packages/js/product-editor/src/components/attribute-control/new-attribute-modal.tsx:194 | the walk leaves no hole, and an array without holes passes through unchanged |
| AttributeModal.KeepOthersIsDense | packages/js/product-editor/src/components/attribute-control/new-attribute-modal.tsx:194 | the rows left by the trash button's `filter` hold no hole |
| AttributeModal.KeepOthersWithoutHoles | packages/js/product-editor/src/components/attribute-control/new-attribute-modal.tsx:194 | on an array without holes, the `filter` is the plain splice of the row at `index`, or no change when `index` is out of range |
| AttributeModal.KeepOthersNonEmpty | packages/js/product-editor/src/components/attribute-control/new-attribute-modal.tsx:191-195 | with several rows and neither the first nor the last slot a hole, the `filter` leaves at least one row |
| AttributeModal.WriteSlot | packages/js/product-editor/src/components/attribute-control/new-attribute-modal.tsx:292 | `setValue('attributes[' + index + ']', row)` as an array assignment: the slot holds the row, every other existing row is unchanged, and a slot past the end lengthens the list, with empty slots (holes) in the gap |
| AttributeModal.OnRemove | packages/js/product-editor/src/components/attribute-control/new-attribute-modal.tsx:191-198 | with several rows, the result is the non-hole rows other than the one at `index`, in order, with no hole; without holes this is the row deleted and the others shifted down (an index past the end deletes nothing); the list stays non-empty when its first and last slots are rows; with one row the slot becomes `[null]`, so the list becomes `[[null]]` rather than empty |
| AttributeModal.RemoveUndoesAddAnother | packages/js/product-editor/src/components/attribute-control/new-attribute-modal.tsx:117-126 | removing the row "+ Add another" appended gives back the original list with its holes read as `undefined`, and exactly the original list when it had no holes |
| AttributeModal.HasValuesSet | packages/js/product-editor/src/components/attribute-control/new-attribute-modal.tsx:216-219 | `some` over the rows, which skips holes: true iff some row is a draft with a non-empty `terms` list |
| AttributeModal.OnClose | packages/js/product-editor/src/components/attribute-control/new-attribute-modal.tsx:215-225 | closing asks for confirmation iff some row has terms selected, and cancels directly iff no row has |
| AttributeModal.CustomOptionsDoNotGuardClose | packages/js/product-editor/src/components/attribute-control/new-attribute-modal.tsx:215-225 | a filled-out custom attribute (options only) would be emitted by "Add", yet closing with it cancels without confirmation |
| AttributeModal.ButtonsDisabled | packages/js/product-editor/src/components/attribute-control/new-attribute-modal.tsx:507-510 | the Add button (and each trash button, by the same expression at lines 454-462) is disabled exactly when the list equals the initial `[null]` |
| AttributeModal.SingleRowRemoveLeavesAddEnabled | packages/js/product-editor/src/components/attribute-control/new-attribute-modal.tsx:197 | after removing the only row, "Add" is enabled although the list now holds a row on which "Add" throws |
| AttributeModal.DraftIds | packages/js/product-editor/src/components/attribute-control/new-attribute-modal.tsx:361-374 | the defined `attr?.id` values: an id is listed iff some row is a draft with that id |
| AttributeModal.DraftIdsAppend | packages/js/product-editor/src/components/attribute-control/new-attribute-modal.tsx:361-374 | the ids are collected in row order |
| AttributeModal.IgnoredAttributeIds | packages/js/product-editor/src/components/attribute-control/new-attribute-modal.tsx:359-375 | the selected ids come first and unchanged, followed by at most one id per row; an id is ignored iff it is selected or held by a draft row |
| AttributeModal.AutoSelectTerms | packages/js/product-editor/src/components/attribute-control/new-attribute-modal.tsx:285-291 | `'all'` sets terms to the whole fetched list; `'first'` sets them to the first fetched term, or leaves the attribute as built when nothing was fetched; no other field changes |
| AttributeModal.FirstIsPrefixOfAll | packages/js/product-editor/src/components/attribute-control/new-attribute-modal.tsx:285-291 | on a non-empty fetch, `'first'` keeps exactly the first term of what `'all'` keeps |
| AttributeModal.OnAttributeTermsFetched | packages/js/product-editor/src/components/attribute-control/new-attribute-modal.tsx:280-294 | once the fetch resolves, slot `index` holds the built attribute with its terms auto-selected, equal to the built attribute except for its terms; every other existing row is unchanged; if rows were removed meanwhile and the slot lies past the end, the gap is left as holes, which "Add" does not check |
| AttributeModal.AutoSelectedRowIsFilledOut | packages/js/product-editor/src/components/attribute-control/new-attribute-modal.tsx:281-294 | a named attribute whose fetch returned terms is filled out after auto-selection in either mode, and closing then asks for confirmation |
| AttributeModal.LateFetchPastEndKeepsAdd | packages/js/product-editor/src/components/attribute-control/new-attribute-modal.tsx:268-294 | a fetch that resolves after removals, for a slot at or past the end, does not block "Add": it throws afterwards iff it threw before, and it emits what it emitted before followed by the fetched row's contribution |
| AttributeModal.EmittedHoles | packages/js/product-editor/src/components/attribute-control/new-attribute-modal.tsx:168-177 | the `forEach` walk over holes alone emits nothing |
| AttributeModal.OnAttributeChange | packages/js/product-editor/src/components/attribute-control/new-attribute-modal.tsx:254-305 | with auto-selection on and an existing attribute picked, nothing is written until the terms arrive; otherwise the slot receives the built attribute, or the falsy value itself when the picker was cleared, no other existing row changes, and a gap before a slot past the end is left as holes |
| AttributeModal.ClearedRowBlocksAdd | packages/js/product-editor/src/components/attribute-control/new-attribute-modal.tsx:298-301 | clearing a row's picker leaves "Add" enabled (the disabled test at 507-510 compares with `null`), yet "Add" throws on that row; the row neither guards closing nor contributes an ignored id |
| PricingMenu.DropLast | packages/js/product-editor/src/components/variations-table/pricing-menu-item/pricing-menu-item.tsx:23 | `substring(0, length - 1)` drops exactly the last character, and yields the empty string on the empty string |
| PricingMenu.IsPercentage | packages/js/product-editor/src/components/variations-table/pricing-menu-item/pricing-menu-item.tsx:18-20 | an operand is a percentage iff it is non-empty and is its text before the last character followed by `%` |
| PricingMenu.ParsePercentage | packages/js/product-editor/src/components/variations-table/pricing-menu-item/pricing-menu-item.tsx:22-28 | undefined iff the text before the last character is not numeric; otherwise the number that text reads as |
| PricingMenu.PercentOperandParsesItsNumber | packages/js/product-editor/src/components/variations-table/pricing-menu-item/pricing-menu-item.tsx:18-28 | text followed by `%` is a percentage operand whose rate is the number the text reads as, undefined iff the text is not numeric |
| PricingMenu.AddFixedOrPercentage | packages/js/product-editor/src/components/variations-table/pricing-menu-item/pricing-menu-item.tsx:30-55 | undefined iff a fixed operand and both base and operand are non-numeric; `NaN` iff a fixed non-numeric operand meets a numeric base; a valid percentage gives `base + base * (p/100) * sign`; a numeric fixed operand gives `base + x * sign` |
| PricingMenu.PercentOfNonNumericBaseIsZero | packages/js/product-editor/src/components/variations-table/pricing-menu-item/pricing-menu-item.tsx:35-38 | a percentage of a non-numeric price is 0 |
| PricingMenu.UnparsablePercentKeepsBase | packages/js/product-editor/src/components/variations-table/pricing-menu-item/pricing-menu-item.tsx:39-42 | a percentage whose number is not numeric returns the price unchanged |
| PricingMenu.FixedOnNonNumericBaseIgnoresDirection | packages/js/product-editor/src/components/variations-table/pricing-menu-item/pricing-menu-item.tsx:48-53 | on a non-numeric price a fixed operand replaces it (undefined when the operand is not numeric either), and decreasing gives the same as increasing |
| PricingMenu.FixedAdjustmentsCancel | packages/js/product-editor/src/components/variations-table/pricing-menu-item/pricing-menu-item.tsx:54 | in exact arithmetic, increasing and then decreasing by the same fixed amount restores the price |
| PricingMenu.FixedIncreaseThenDecreaseRestores | packages/js/product-editor/src/components/variations-table/pricing-menu-item/pricing-menu-item.tsx:30-55 | the same round trip through `addFixedOrPercentage` itself, with the increased price read back from its text, gives the original price |
| PricingMenu.PercentRoundTripValue | packages/js/product-editor/src/components/variations-table/pricing-menu-item/pricing-menu-item.tsx:43-46 | increasing and then decreasing by p percent scales the price by `1 - (p/100)^2` |
| PricingMenu.PercentAdjustmentsDoNotCancel | packages/js/product-editor/src/components/variations-table/pricing-menu-item/pricing-menu-item.tsx:43-46 | so percentage increase and decrease are not inverses: a non-zero price under a non-zero rate is never restored |
| PricingMenu.PercentIncreaseThenDecrease | packages/js/product-editor/src/components/variations-table/pricing-menu-item/pricing-menu-item.tsx:35-46 | the percentage round trip through `addFixedOrPercentage` itself yields `base - base * (p/100)^2` |
| PricingMenu.BulkPatches | packages/js/product-editor/src/components/variations-table/pricing-menu-item/pricing-menu-item.tsx:117-132 | `selection.map`: one patch per variation, in order, each holding exactly `id` (that variation's) and the targeted field |
| PricingMenu.SelectionChange | packages/js/product-editor/src/components/variations-table/pricing-menu-item/pricing-menu-item.tsx:117-141 | a single variation gets one patch holding only the targeted field, with no id; a bulk selection gets one id-carrying patch per variation, in order |
| PricingMenu.TargetField | packages/js/product-editor/src/components/variations-table/pricing-menu-item/pricing-menu-item.tsx:117-354 | the two list-price items write `regular_price` and exactly the three sale-price items write `sale_price` |
| PricingMenu.NewPrice | packages/js/product-editor/src/components/variations-table/pricing-menu-item/pricing-menu-item.tsx:117-354 | "Set sale price" stores the answer as typed; every other item writes `addFixedOrPercentage(<the price it writes>, answer, ±1)?.toFixed(2)`, with -1 exactly for the two decrease items |
| PricingMenu.OnPricePrompt | packages/js/product-editor/src/components/variations-table/pricing-menu-item/pricing-menu-item.tsx:117-354 | a cancelled prompt issues nothing and an answered one a change; its patches hold only the targeted price (plus each id, in selection order, for a bulk selection); "Set sale price" stores the answer verbatim; each adjusting item writes, for each variation, the `toFixed(2)` of `addFixedOrPercentage` applied to that variation's own targeted price, lowering exactly for the decrease items |
| PricingMenu.BulkAgreesWithSingle | packages/js/product-editor/src/components/variations-table/pricing-menu-item/pricing-menu-item.tsx:272-296 | each patch of a bulk change is the patch the same item issues for that variation alone, plus its id |
| PricingMenu.IncreaseListPriceWritesSum | packages/js/product-editor/src/components/variations-table/pricing-menu-item/pricing-menu-item.tsx:133-141 | increasing a numeric list price by a numeric amount writes the sum, formatted to two decimals |
| PricingMenu.FixedDecreaseItemUndoesIncrease | packages/js/product-editor/src/components/variations-table/pricing-menu-item/pricing-menu-item.tsx:117-354 | by the same fixed amount, "Decrease list price" undoes "Increase list price", and "Decrease sale price" undoes "Increase sale price", when the written price is read back from its text |
| PricingMenu.ScheduleSale | packages/js/product-editor/src/components/variations-table/pricing-menu-item/pricing-menu-item.tsx:386-427 | one change per answered prompt; the start-date answer goes to `date_on_sale_from_gmt` and comes first, the end-date answer goes to `date_on_sale_to_gmt` and comes last |
| InventoryMenu.InventoryPatch | packages/js/product-editor/src/components/variations-table/variation-actions-menu/test/variation-actions-menu.test.tsx:105-317 | a prompting action issues nothing iff its prompt is cancelled, and otherwise a patch holding exactly `stock_quantity` (or `low_stock_amount`) set to the number read from the answer, and `manage_stock`; every patch sets `manage_stock`, to true exactly for the prompting actions and for toggling an untracked variation; a status action's patch holds exactly `stock_status` and `manage_stock`; the toggle's holds only `manage_stock` |
| InventoryMenu.ToggleTwiceRestores | packages/js/product-editor/src/components/variations-table/variation-actions-menu/test/variation-actions-menu.test.tsx:175-212 | toggling "track quantity" flips `manage_stock` and nothing else; toggling twice restores the variation |
| InventoryMenu.StatusActionSetsStatus | packages/js/product-editor/src/components/variations-table/variation-actions-menu/test/variation-actions-menu.test.tsx:214-290 | a status action sets that status, turns stock tracking off and changes nothing else |
| InventoryMenu.PromptedActionStoresNumber | packages/js/product-editor/src/components/variations-table/variation-actions-menu/test/variation-actions-menu.test.tsx:105-173 | an answered stock or low-stock prompt writes no id, price, date or status key, stores the number read from the answer and turns tracking on, changing nothing else; a cancelled prompt issues no patch |
| InventoryMenu.TestedPatches | packages/js/product-editor/src/components/variations-table/variation-actions-menu/test/variation-actions-menu.test.tsx:19-317 | on the tests' variation (id 10, not tracked) each action produces exactly the patch its test expects, and the cancelled prompt none |
| LogoSidebar.SetAttributes | plugins/woocommerce-admin/client/customize-store/assembler-hub/sidebar/sidebar-navigation-screen-logo.tsx:443-448 | no call at all iff there is no logo block client id; otherwise exactly one update addressed to that block |
| LogoSidebar.SetIcon | plugins/woocommerce-admin/client/customize-store/assembler-hub/sidebar/sidebar-navigation-screen-logo.tsx:76-80 | `setIcon` edits `site_icon`: with the given id, or `null` (a reset) for `undefined` |
| LogoSidebar.SetLogo | plugins/woocommerce-admin/client/customize-store/assembler-hub/sidebar/sidebar-navigation-screen-logo.tsx:76-95 | the logo is always written, last; the site icon is written first, with the same value (`null` for undefined), iff the block syncs the icon or the sync is forced |
| LogoSidebar.OnSelectLogo | plugins/woocommerce-admin/client/customize-store/assembler-hub/sidebar/sidebar-navigation-screen-logo.tsx:97-112 | no media issues nothing; a temporary blob (url, no id) clears the logo without forcing the sync; other media become the logo with the caller's force flag |
| LogoSidebar.OnInitialSelectLogo | plugins/woocommerce-admin/client/customize-store/assembler-hub/sidebar/sidebar-navigation-screen-logo.tsx:114-128 | with `shouldSyncIcon` undefined it first sets it to "no site icon" and then selects, forcing the sync with that same value; otherwise it selects without forcing or changing attributes |
| LogoSidebar.ForcedSyncMatchesUpdatedAttribute | plugins/woocommerce-admin/client/customize-store/assembler-hub/sidebar/sidebar-navigation-screen-logo.tsx:117-124 | the forced sync does what it stands in for: for media that are not a temporary blob, the first selection issues the same edits as a selection made after the attribute update |
| LogoSidebar.TemporaryBlobSkipsForcedSync | plugins/woocommerce-admin/client/customize-store/assembler-hub/sidebar/sidebar-navigation-screen-logo.tsx:105-108 | for a temporary blob with no site icon, the first selection clears only the logo, while one after the attribute update would also reset the icon |
| LogoSidebar.OnFileChange | plugins/woocommerce-admin/client/customize-store/assembler-hub/sidebar/sidebar-navigation-screen-logo.tsx:139-144 | an uploaded image with a `blob:` URL is ignored; anything else goes through the first-selection handler |
| LogoSidebar.MissingImageStillInitialisesSync | plugins/woocommerce-admin/client/customize-store/assembler-hub/sidebar/sidebar-navigation-screen-logo.tsx:139-144 | an upload callback without an image still initialises `shouldSyncIcon` and selects nothing |
| LogoSidebar.OnUseAsSiteIcon | plugins/woocommerce-admin/client/customize-store/assembler-hub/sidebar/sidebar-navigation-screen-logo.tsx:241-244 | the "Use as site icon" toggle first updates `shouldSyncIcon` to the toggle value, then writes the site icon: the logo id when on, a reset when off |
| LogoSidebar.LogoId | plugins/woocommerce-admin/client/customize-store/assembler-hub/sidebar/sidebar-navigation-screen-logo.tsx:361 | the logo id shown is the loaded media item's id when truthy, else the `site_logo` setting |
| LogoSidebar.SiteIconFollowsShownLogo | plugins/woocommerce-admin/client/customize-store/assembler-hub/sidebar/sidebar-navigation-screen-logo.tsx:241-244 | turning "Use as site icon" on writes the shown logo as the site icon: the media item's id, else the `site_logo` setting |
| LogoSidebar.OnLinkToHomepage | plugins/woocommerce-admin/client/customize-store/assembler-hub/sidebar/sidebar-navigation-screen-logo.tsx:230-232 | with a logo block, one update setting `isLink` to the negation of its current value (undefined read as false); without one, nothing |
| LogoSidebar.OnWidthChange | plugins/woocommerce-admin/client/customize-store/assembler-hub/sidebar/sidebar-navigation-screen-logo.tsx:217-219 | with a logo block, one update setting `width` to the chosen value; without one, nothing |
| LogoSidebar.CurrentWidth | plugins/woocommerce-admin/client/customize-store/assembler-hub/sidebar/sidebar-navigation-screen-logo.tsx:189-191 | `width` when truthy, else `defaultWidth`: a defined non-zero width is shown as is, otherwise the default 120 |
| LogoSidebar.UseAsSiteIconSyncsAttribute | plugins/woocommerce-admin/client/customize-store/assembler-hub/sidebar/sidebar-navigation-screen-logo.tsx:241-245 | after the toggle the block's `shouldSyncIcon` equals the toggle and no other attribute changed |
| LogoSidebar.LinkToggleTwiceRestores | plugins/woocommerce-admin/client/customize-store/assembler-hub/sidebar/sidebar-navigation-screen-logo.tsx:230-233 | "Link logo to homepage" negates whether the logo links; flipping twice restores it, and no other attribute changes |
| LogoSidebar.WidthChangeIsShown | plugins/woocommerce-admin/client/customize-store/assembler-hub/sidebar/sidebar-navigation-screen-logo.tsx:189-191 | a width set with the range control is the width shown afterwards, except 0, which shows the default 120 |
| LogoSidebar.IsResizable | plugins/woocommerce-admin/client/customize-store/assembler-hub/sidebar/sidebar-navigation-screen-logo.tsx:175-177 | resizable iff the alignment is neither wide nor full and the viewport is large; with no alignment, exactly on a large viewport |
| LogoSidebar.OnlyWideOrFullBlocksResizing | plugins/woocommerce-admin/client/customize-store/assembler-hub/sidebar/sidebar-navigation-screen-logo.tsx:176-177 | any alignment other than wide or full (center, left, ...) behaves as no alignment |
| LogoSidebar.IsLoading | plugins/woocommerce-admin/client/customize-store/assembler-hub/sidebar/sidebar-navigation-screen-logo.tsx:386-454 | loading whenever the logo setting is undefined, the block is loading or no block was returned; not loading iff the setting is known, the block and its attributes are present and a set logo's media item has resolved |
| LogoSidebar.NoLogoIgnoresMediaResolution | plugins/woocommerce-admin/client/customize-store/assembler-hub/sidebar/sidebar-navigation-screen-logo.tsx:419-431 | without a logo set, no media item is requested, so its resolution does not affect loading |

## Left out

- Rendering: JSX, the Modal, Dropdown and Menu components, translated strings and CSS class names.
- DOM focus and scroll helpers driven by `setTimeout`, in the attribute modal: they only move focus.
- `recordEvent` analytics calls, including the action label on the decrease-list-price path. They are a side channel and do not affect any result.
- The asynchronous fetch of an attribute's terms. The fetched list is an input of `AttributeModal.OnAttributeTermsFetched`, which models the write made when the fetch resolves.
- `getProductAttributeObject`, which is not part of this model. Its result is an input: `selected` in `AttributeModal.AutoSelectTerms`, and `built` in the picker value of `AttributeModal.OnAttributeChange`.
- `AttributeModal.WriteSlot`: the form's `setValue` is not part of this model. A path write `attributes[index]` is taken to behave like a JavaScript array assignment: a write past the end leaves empty slots (holes) in the gap, which `forEach`, `some` and `filter` skip and a spread reads as `undefined`.
- `AttributeModal.Emitted`: its own contract only bounds the length. The shape of each emitted attribute is stated by `AttributeModal.EmittedAreNamedAndVisible`, and exact selection and order by `AttributeModal.EmittedSelectsFilled` and `AttributeModal.EmittedAppend`.
- `AttributeModal.OnRemove`: the list is promised to stay non-empty only when its first and last slots are not holes. Every list the modal builds has this shape, because a hole is always followed by the row whose write created it, and the list starts as `[null]`.
- JavaScript `Number()` coercion rules are a parameter, `parse`. The model does not fix which strings are numeric, for example that `Number("")` is 0.
- IEEE floating point arithmetic is not modelled: prices are exact reals.
- `toFixed(2)` rounding is kept abstract: `Fixed2(n)` stands for the text `n.toFixed(2)`, and `Fixed2(NaN)` for `"NaN"`.
- `handlePrompt` and `window.prompt` are not part of this model. A prompt's answer is an `Option<string>`, with `None` for cancel.
- The `onClose` call each menu item makes after prompting. It only closes the menu.
- `SetListPriceMenuItem`, which is not part of this model.
- The `VariationActionsMenu` implementation is not part of this model. The inventory patches are modelled from what its tests assert.
  - The numeric prompts are assumed to be read with `Number(value)`, as the tests' expected values show.
  - Bulk inventory actions are not asserted by the tests and are not modelled.
  - The delete item and the analytics assertions are not modelled either.
- `InventoryMenu.ApplyPatch`: how the store merges a patch into a variation is assumed here, as a reference for the lemmas. The front end does not define it.
- `LogoSidebar.ApplyUpdates`: how the block editor merges attribute updates into a block's attributes is assumed here, as a reference for the lemmas. The front end does not define it.
- Host stores and media are not modelled:
  - `useSelect` and `useDispatch` selectors, and `editEntityRecord`, appear only as the returned effects;
  - `updateBlockAttributes` appears as the returned effects, and its merge is assumed as `LogoSidebar.ApplyUpdates` (above);
  - `mediaUpload`, `createErrorNotice` and the media components are not modelled;
  - image natural-size loading, and the `minWidth` and `maxWidthBuffer` computations with their `Math.ceil`, are not modelled.
- Which site setting `site_logo` is read from depends on whether the user can edit settings. The model takes the value read as an input (`SiteLogoSetting`).
- Ids and URLs are strings. An absent or empty string is falsy. A numeric site icon id of 0 is modelled as absent.
- `LogoSidebar.WidthChangeIsShown`: a `NaN` width, which is also falsy, is not modelled.
