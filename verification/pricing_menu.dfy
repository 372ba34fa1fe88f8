/** The "Pricing" sub-menu of the variations table: the fixed-or-percentage
    price adjustment and the patches each menu item hands to `onChange`, for a
    single variation or a bulk selection. */
module PricingMenu {
  import opened Wrappers
  import opened Variations

  /** The `increaseOrDecrease` argument, `1` or `-1`. */
  datatype Direction = Increase | Decrease

  function Sign(d: Direction): real {
    match d
    case Increase => 1.0
    case Decrease => -1.0
  }

  /** An operand is a percentage when it ends with `%`: it is then its
      number text followed by `%`. */
  function IsPercentage(s: string): (b: bool)
    ensures b <==> |s| > 0 && DropLast(s) + "%" == s
  {
    |s| > 0 && s[|s| - 1] == '%'
  }

  /** `s.substring(0, s.length - 1)`; on the empty string the negative end
      index clamps to 0. */
  function DropLast(s: string): (r: string)
    ensures |s| > 0 ==> r + [s[|s| - 1]] == s
    ensures |s| == 0 ==> r == ""
  {
    if |s| == 0 then "" else s[..|s| - 1]
  }

  /** The number before the trailing `%`, or `None` (undefined) when that
      text is not numeric. */
  function ParsePercentage(parse: NumberParser, s: string): (r: Option<real>)
    ensures r.None? <==> parse(DropLast(s)).NaN?
    ensures r.Some? ==> parse(DropLast(s)) == Real(r.value)
  {
    match parse(DropLast(s))
    case NaN => None
    case Real(x) => Some(x)
  }

  /** An operand written as a number followed by `%` is a percentage of
      exactly that number. */
  lemma PercentOperandParsesItsNumber(parse: NumberParser, text: string)
    ensures IsPercentage(text + "%")
    ensures ParsePercentage(parse, text + "%").None? <==> parse(text).NaN?
    ensures parse(text).Real? ==> ParsePercentage(parse, text + "%") == Some(parse(text).value)
  {
    assert DropLast(text + "%") == text;
  }

  /** An adjustment read from a well-formed operand. */
  datatype Operand = Fixed(amount: real) | Percent(rate: real)

  /** Reference arithmetic of an adjustment on exact numbers. */
  function Adjust(base: real, op: Operand, d: Direction): real {
    match op
    case Fixed(x) => base + x * Sign(d)
    case Percent(p) => base + base * (p / 100.0) * Sign(d)
  }

  /** Increasing and then decreasing by the same fixed amount restores the price. */
  lemma FixedAdjustmentsCancel(base: real, x: real)
    ensures Adjust(Adjust(base, Fixed(x), Increase), Fixed(x), Decrease) == base
  {
  }

  /** Increasing and then decreasing by the same percentage scales the price
      by `1 - (p/100)^2`. */
  lemma PercentRoundTripValue(base: real, p: real)
    ensures Adjust(Adjust(base, Percent(p), Increase), Percent(p), Decrease)
         == base - base * (p / 100.0) * (p / 100.0)
  {
    var q := p / 100.0;
    var up := Adjust(base, Percent(p), Increase);
    assert up == base + base * q;
    calc {
      Adjust(up, Percent(p), Decrease);
      up + up * q * -1.0;
      (base + base * q) - (base + base * q) * q;
      { assert (base + base * q) * q == base * q + base * q * q; }
      base - base * q * q;
    }
  }

  /** So percentage increase and decrease are not inverses: a non-zero price
      under a non-zero rate is never restored. */
  lemma PercentAdjustmentsDoNotCancel(base: real, p: real)
    requires base != 0.0 && p != 0.0
    ensures Adjust(Adjust(base, Percent(p), Increase), Percent(p), Decrease) != base
  {
    PercentRoundTripValue(base, p);
    ScaledSquareIsNonZero(base, p / 100.0, Adjust(Adjust(base, Percent(p), Increase), Percent(p), Decrease));
  }

  lemma ScaledSquareIsNonZero(a: real, q: real, scaled: real)
    requires a != 0.0 && q != 0.0 && scaled == a - a * q * q
    ensures scaled != a
  {
    ProductOfNonZeros(a, q);
    ProductOfNonZeros(a * q, q);
  }

  lemma ProductOfNonZeros(a: real, b: real)
    requires a != 0.0 && b != 0.0
    ensures a * b != 0.0
  {
    if a > 0.0 && b > 0.0 {
      ProductOfPositives(a, b);
    } else if a > 0.0 {
      ProductOfPositives(a, -b);
      assert a * (-b) == -(a * b);
    } else if b > 0.0 {
      ProductOfPositives(-a, b);
      assert (-a) * b == -(a * b);
    } else {
      ProductOfPositives(-a, -b);
      assert (-a) * (-b) == a * b;
    }
  }

  lemma ProductOfPositives(x: real, y: real)
    requires x > 0.0 && y > 0.0
    ensures x * y > 0.0
  {
  }

  /** `addFixedOrPercentage(value, fixedOrPercentage, increaseOrDecrease)`.
      `None` is `undefined`. */
  function AddFixedOrPercentage(parse: NumberParser, value: string, operand: string, d: Direction): (r: Option<Num>)
    ensures r.None? <==> !IsPercentage(operand) && parse(value).NaN? && parse(operand).NaN?
    ensures r == Some(NaN) <==> !IsPercentage(operand) && parse(value).Real? && parse(operand).NaN?
    ensures IsPercentage(operand) && parse(value).Real? && ParsePercentage(parse, operand).Some? ==>
      r == Some(Real(Adjust(parse(value).value, Percent(ParsePercentage(parse, operand).value), d)))
    ensures !IsPercentage(operand) && parse(value).Real? && parse(operand).Real? ==>
      r == Some(Real(Adjust(parse(value).value, Fixed(parse(operand).value), d)))
  {
    if IsPercentage(operand) then
      match parse(value)
      case NaN => Some(Real(0.0))
      case Real(base) =>
        match ParsePercentage(parse, operand)
        case None => Some(Real(base))
        case Some(percentage) => Some(Real(Adjust(base, Percent(percentage), d)))
    else
      match parse(value)
      case NaN => if parse(operand).NaN? then None else Some(parse(operand))
      case Real(base) =>
        match parse(operand)
        case NaN => Some(NaN)
        case Real(x) => Some(Real(Adjust(base, Fixed(x), d)))
  }

  /** A percentage of a non-numeric price is 0. */
  lemma PercentOfNonNumericBaseIsZero(parse: NumberParser, value: string, operand: string, d: Direction)
    requires IsPercentage(operand) && parse(value).NaN?
    ensures AddFixedOrPercentage(parse, value, operand, d) == Some(Real(0.0))
  {
  }

  /** A percentage whose number is not numeric leaves the price as it is. */
  lemma UnparsablePercentKeepsBase(parse: NumberParser, value: string, operand: string, d: Direction)
    requires IsPercentage(operand) && parse(value).Real? && parse(DropLast(operand)).NaN?
    ensures AddFixedOrPercentage(parse, value, operand, d) == Some(parse(value))
  {
  }

  /** On a non-numeric price a fixed operand replaces the price, and the
      direction is ignored: decreasing gives the same result as increasing. */
  lemma FixedOnNonNumericBaseIgnoresDirection(parse: NumberParser, value: string, operand: string)
    requires !IsPercentage(operand) && parse(value).NaN?
    ensures AddFixedOrPercentage(parse, value, operand, Decrease)
         == AddFixedOrPercentage(parse, value, operand, Increase)
         == (if parse(operand).NaN? then None else Some(parse(operand)))
  {
  }

  /** Increasing a numeric price by a fixed amount and then decreasing the
      result, read back from `rendered`, by the same amount gives the price back. */
  lemma FixedIncreaseThenDecreaseRestores(parse: NumberParser, value: string, operand: string, rendered: string, base: real, x: real)
    requires !IsPercentage(operand)
    requires parse(value) == Real(base) && parse(operand) == Real(x)
    requires Some(parse(rendered)) == AddFixedOrPercentage(parse, value, operand, Increase)
    ensures AddFixedOrPercentage(parse, rendered, operand, Decrease) == Some(Real(base))
  {
    FixedAdjustmentsCancel(base, x);
  }

  /** The same round trip with a percentage scales the price by `1 - (p/100)^2`. */
  lemma PercentIncreaseThenDecrease(parse: NumberParser, value: string, operand: string, rendered: string, base: real, p: real)
    requires IsPercentage(operand)
    requires parse(value) == Real(base) && ParsePercentage(parse, operand) == Some(p)
    requires Some(parse(rendered)) == AddFixedOrPercentage(parse, value, operand, Increase)
    ensures AddFixedOrPercentage(parse, rendered, operand, Decrease)
         == Some(Real(base - base * (p / 100.0) * (p / 100.0)))
  {
    PercentRoundTripValue(base, p);
  }

  /** The `selection` prop: one variation, or an array of them. */
  datatype Selection = Single(variation: Variation) | Bulk(variations: seq<Variation>)

  /** The argument handed to `onChange`: one patch, or one per selected variation. */
  datatype Change = ChangeOne(patch: Patch) | ChangeMany(patches: seq<Patch>)

  /** `selection.map(v => ({ id: v.id, [field]: valueOf(v) }))`. */
  function BulkPatches(vs: seq<Variation>, field: Field, valueOf: Variation -> Value): (ps: seq<Patch>)
    requires field != Id
    ensures |ps| == |vs|
    ensures forall k :: 0 <= k < |vs| ==>
      ps[k].Keys == {Id, field} && ps[k][Id] == IdValue(vs[k].id) && ps[k][field] == valueOf(vs[k])
  {
    if |vs| == 0 then []
    else [map[Id := IdValue(vs[0].id), field := valueOf(vs[0])]] + BulkPatches(vs[1..], field, valueOf)
  }

  /** The change a menu item issues for `field`: without an id for a single
      variation, with each id for a bulk selection. */
  function SelectionChange(sel: Selection, field: Field, valueOf: Variation -> Value): (c: Change)
    requires field != Id
    ensures sel.Single? ==> c.ChangeOne? && c.patch.Keys == {field} && c.patch[field] == valueOf(sel.variation)
    ensures sel.Bulk? ==>
      && c.ChangeMany?
      && |c.patches| == |sel.variations|
      && (forall k :: 0 <= k < |sel.variations| ==>
            && c.patches[k].Keys == {Id, field}
            && c.patches[k][Id] == IdValue(sel.variations[k].id)
            && c.patches[k][field] == valueOf(sel.variations[k]))
  {
    match sel
    case Single(v) => ChangeOne(map[field := valueOf(v)])
    case Bulk(vs) => ChangeMany(BulkPatches(vs, field, valueOf))
  }

  /** The menu items that prompt for one value and write one price. */
  datatype PriceItem =
    | IncreaseListPrice
    | DecreaseListPrice
    | SetSalePrice
    | IncreaseSalePrice
    | DecreaseSalePrice

  /** The list-price items write `regular_price`; the sale-price items write
      `sale_price`. */
  function TargetField(item: PriceItem): (f: Field)
    ensures f == RegularPrice <==> item == IncreaseListPrice || item == DecreaseListPrice
    ensures f == SalePrice <==> !(item == IncreaseListPrice || item == DecreaseListPrice)
  {
    match item
    case IncreaseListPrice | DecreaseListPrice => RegularPrice
    case _ => SalePrice
  }

  /** `result?.toFixed(2)`. */
  function ToFixed2(result: Option<Num>): Value {
    match result
    case None => Undefined
    case Some(n) => Fixed2(n)
  }

  /** The price a variation holds in a price field. */
  function PriceIn(v: Variation, f: Field): string
    requires f == RegularPrice || f == SalePrice
  {
    if f == RegularPrice then v.regularPrice else v.salePrice
  }

  /** The two items that lower a price. */
  predicate Lowers(item: PriceItem) {
    item == DecreaseListPrice || item == DecreaseSalePrice
  }

  /** The new value of the targeted price of `v` for the prompt answer `input`:
      "Set sale price" stores the answer as typed; every other item adjusts
      the price it writes, downwards exactly for the two decrease items. */
  function NewPrice(parse: NumberParser, item: PriceItem, v: Variation, input: string): (r: Value)
    ensures item == SetSalePrice ==> r == Text(input)
    ensures item != SetSalePrice ==>
      r == ToFixed2(AddFixedOrPercentage(parse, PriceIn(v, TargetField(item)), input,
                                         if Lowers(item) then Decrease else Increase))
  {
    match item
    case IncreaseListPrice => ToFixed2(AddFixedOrPercentage(parse, v.regularPrice, input, Increase))
    case DecreaseListPrice => ToFixed2(AddFixedOrPercentage(parse, v.regularPrice, input, Decrease))
    case SetSalePrice => Text(input)
    case IncreaseSalePrice => ToFixed2(AddFixedOrPercentage(parse, v.salePrice, input, Increase))
    case DecreaseSalePrice => ToFixed2(AddFixedOrPercentage(parse, v.salePrice, input, Decrease))
  }

  /** A price menu item once its prompt is answered (`Some`) or cancelled (`None`). */
  function OnPricePrompt(parse: NumberParser, item: PriceItem, sel: Selection, prompt: Option<string>): (r: Option<Change>)
    ensures r.None? <==> prompt.None?
    ensures r.Some? && sel.Single? ==> r.value.ChangeOne? && r.value.patch.Keys == {TargetField(item)}
    ensures r.Some? && sel.Bulk? ==>
      && r.value.ChangeMany?
      && |r.value.patches| == |sel.variations|
      && (forall k :: 0 <= k < |sel.variations| ==>
            && r.value.patches[k].Keys == {Id, TargetField(item)}
            && r.value.patches[k][Id] == IdValue(sel.variations[k].id))
    ensures r.Some? && item == SetSalePrice && sel.Single? ==>
      SalePrice in r.value.patch && r.value.patch[SalePrice] == Text(prompt.value)
    ensures r.Some? && item == SetSalePrice && sel.Bulk? ==>
      forall k :: 0 <= k < |sel.variations| ==>
        SalePrice in r.value.patches[k] && r.value.patches[k][SalePrice] == Text(prompt.value)
    ensures r.Some? && item != SetSalePrice && sel.Single? ==>
      var f := TargetField(item);
      f in r.value.patch &&
      r.value.patch[f] == ToFixed2(AddFixedOrPercentage(parse, PriceIn(sel.variation, f), prompt.value,
                                                        if Lowers(item) then Decrease else Increase))
    ensures r.Some? && item != SetSalePrice && sel.Bulk? ==>
      var f := TargetField(item);
      forall k :: 0 <= k < |sel.variations| ==>
        f in r.value.patches[k] &&
        r.value.patches[k][f] == ToFixed2(AddFixedOrPercentage(parse, PriceIn(sel.variations[k], f), prompt.value,
                                                               if Lowers(item) then Decrease else Increase))
  {
    match prompt
    case None => None
    case Some(input) => Some(SelectionChange(sel, TargetField(item), v => NewPrice(parse, item, v, input)))
  }

  /** Each patch of a bulk change is the patch the same item would issue for
      that variation alone, plus its id. */
  lemma BulkAgreesWithSingle(parse: NumberParser, item: PriceItem, vs: seq<Variation>, input: string, k: int)
    requires 0 <= k < |vs|
    ensures OnPricePrompt(parse, item, Bulk(vs), Some(input)).value.patches[k]
         == OnPricePrompt(parse, item, Single(vs[k]), Some(input)).value.patch[Id := IdValue(vs[k].id)]
  {
    var bulk := OnPricePrompt(parse, item, Bulk(vs), Some(input)).value.patches[k];
    var single := OnPricePrompt(parse, item, Single(vs[k]), Some(input)).value.patch;
    assert bulk.Keys == single.Keys + {Id};
  }

  /** Increasing a numeric list price by a numeric fixed amount writes the sum. */
  lemma IncreaseListPriceWritesSum(parse: NumberParser, v: Variation, input: string, base: real, x: real)
    requires !IsPercentage(input) && parse(v.regularPrice) == Real(base) && parse(input) == Real(x)
    ensures OnPricePrompt(parse, IncreaseListPrice, Single(v), Some(input)).value.patch[RegularPrice]
         == Fixed2(Real(base + x))
  {
  }

  /** A decrease item undoes the matching increase item by the same fixed
      amount, when the written price is read back from its text. */
  lemma FixedDecreaseItemUndoesIncrease(parse: NumberParser, item: PriceItem, v: Variation, input: string, rendered: string, base: real, x: real)
    requires item == IncreaseListPrice || item == IncreaseSalePrice
    requires !IsPercentage(input) && parse(input) == Real(x)
    requires parse(PriceIn(v, TargetField(item))) == Real(base)
    requires Fixed2(parse(rendered)) == OnPricePrompt(parse, item, Single(v), Some(input)).value.patch[TargetField(item)]
    ensures
      var undo := if item == IncreaseListPrice then DecreaseListPrice else DecreaseSalePrice;
      var w := if item == IncreaseListPrice then v.(regularPrice := rendered) else v.(salePrice := rendered);
      OnPricePrompt(parse, undo, Single(w), Some(input)).value.patch[TargetField(undo)] == Fixed2(Real(base))
  {
    FixedIncreaseThenDecreaseRestores(parse, PriceIn(v, TargetField(item)), input, rendered, base, x);
  }

  /** "Schedule sale": two prompts, answered in turn; each answered prompt
      issues its own change, the start date first. */
  function ScheduleSale(sel: Selection, startPrompt: Option<string>, endPrompt: Option<string>): (r: seq<Change>)
    ensures |r| == (if startPrompt.Some? then 1 else 0) + (if endPrompt.Some? then 1 else 0)
    ensures startPrompt.Some? ==> r[0] == SelectionChange(sel, DateOnSaleFrom, _ => Text(startPrompt.value))
    ensures endPrompt.Some? ==> r[|r| - 1] == SelectionChange(sel, DateOnSaleTo, _ => Text(endPrompt.value))
  {
    (match startPrompt
     case None => []
     case Some(start) => [SelectionChange(sel, DateOnSaleFrom, _ => Text(start))])
    + (match endPrompt
       case None => []
       case Some(end) => [SelectionChange(sel, DateOnSaleTo, _ => Text(end))])
  }
}
