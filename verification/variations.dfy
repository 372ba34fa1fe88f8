/** Product variations and the partial updates ("patches") that the variation
    menus hand to their `onChange` callback. */
module Variations {
  import opened Wrappers

  /** A JavaScript number: `NaN` or a finite value. IEEE rounding and the
      infinities are not modelled. */
  datatype Num = NaN | Real(value: real)

  /** JavaScript's `Number(s)` string conversion, left as a parameter:
      `NaN` when the string is not numeric. */
  type NumberParser = string -> Num

  datatype StockStatus = InStock | OutOfStock | OnBackorder

  /** The fields of a variation that the menus read or write. Prices are kept
      as the strings the store returns. */
  datatype Variation = Variation(
    id: int,
    regularPrice: string,
    salePrice: string,
    manageStock: bool,
    stockStatus: StockStatus,
    stockQuantity: Option<Num>,
    lowStockAmount: Option<Num>)

  /** The keys a patch may carry, one per JSON key: `id`, `regular_price`,
      `sale_price`, `date_on_sale_from_gmt`, `date_on_sale_to_gmt`,
      `stock_quantity`, `manage_stock`, `stock_status`, `low_stock_amount`. */
  datatype Field =
    | Id
    | RegularPrice
    | SalePrice
    | DateOnSaleFrom
    | DateOnSaleTo
    | StockQuantity
    | ManageStock
    | StockStatusField
    | LowStockAmount

  /** The value stored under a patch key. `Fixed2(n)` is the string
      `n.toFixed(2)`; `Undefined` is a key present with value `undefined`. */
  datatype Value =
    | IdValue(id: int)
    | Undefined
    | Fixed2(n: Num)
    | Text(text: string)
    | Flag(flag: bool)
    | Status(status: StockStatus)
    | Number(n: Num)

  /** A partial update: only the keys present are changed. */
  type Patch = map<Field, Value>
}
