/**
 * The records of the product finder: the property catalog, raw products as
 * sparse (property id, value) lists, normalized products with one optional
 * slot per known field, and the single filter clause.
 */
module Types {
  import opened Wrappers
  import JsStrings
  import opened JsNumbers

  /** A JavaScript `string | number`, as stored in raw entries and product fields. */
  datatype Value = Str(s: string) | Num(n: Number)
  {
    /** `String(v)`. */
    function ToString(): string
    {
      match this
      case Str(s) => s
      case Num(n) => NumberToString(n)
    }

    /** `Number(v)`. */
    function ToNumber(): Number
    {
      match this
      case Str(s) => ParseNumber(s)
      case Num(n) => n
    }

    /** `if (v)`: the empty string, zero and NaN are falsy. */
    predicate IsTruthy()
    {
      match this
      case Str(s) => s != ""
      case Num(n) => JsNumbers.IsTruthy(n)
    }
  }

  /** One entry of a raw product: the catalog id of a property and its raw value. */
  datatype ProductProperty = ProductProperty(propertyId: int, value: Value)

  datatype RawProduct = RawProduct(id: int, propertyValues: seq<ProductProperty>)

  /**
   * The declared type of a catalog property; `OtherType` stands for any
   * other tag a catalog may carry at run time.
   */
  datatype PropertyType = StringType | NumberType | Enumerated | OtherType(tag: string)

  datatype Property = Property(id: int, name: string, valueType: PropertyType, values: Option<seq<string>>)

  /** The five fields of a normalized product that a catalog name can map to. */
  datatype Field = ProductName | Color | Weight | Category | Wireless

  /** A normalized product: its id, and each field present or absent. */
  datatype Product = Product(
    id: int,
    productName: Option<Value>,
    color: Option<Value>,
    weight: Option<Value>,
    category: Option<Value>,
    wireless: Option<Value>)
  {
    /** `product[key]`, absent (`undefined`) as `None`. */
    function Get(f: Field): Option<Value>
    {
      match f
      case ProductName => productName
      case Color => color
      case Weight => weight
      case Category => category
      case Wireless => wireless
    }

    /** `product[key] = v`: sets one field and leaves the id and every other field alone. */
    function With(f: Field, v: Value): (p: Product)
      ensures p.id == id
      ensures p.Get(f) == Some(v)
      ensures forall g :: g != f ==> p.Get(g) == Get(g)
    {
      match f
      case ProductName => this.(productName := Some(v))
      case Color => this.(color := Some(v))
      case Weight => this.(weight := Some(v))
      case Category => this.(category := Some(v))
      case Wireless => this.(wireless := Some(v))
    }
  }

  /** An operator as the catalog gives it; the filter dispatches on the `id` tag. */
  datatype Operator = Operator(id: string, text: string)

  /** The value of a filter clause: `string | number | string[]`, or `null` for `any`/`none`. */
  datatype FilterValue = StrValue(s: string) | NumValue(n: Number) | ListValue(items: seq<string>) | NullValue
  {
    /** `String(value)`; an array is joined with commas. */
    function ToString(): string
    {
      match this
      case StrValue(s) => s
      case NumValue(n) => NumberToString(n)
      case ListValue(items) => JsStrings.Join(items, ',')
      case NullValue => "null"
    }

    /** `Number(value)`; an array converts through its string, `null` to 0. */
    function ToNumber(): Number
    {
      match this
      case StrValue(s) => ParseNumber(s)
      case NumValue(n) => n
      case ListValue(items) => ParseNumber(JsStrings.Join(items, ','))
      case NullValue => Dec(0, 0)
    }

    /** `value ? … : …`: every array is truthy, `null` is not. */
    predicate IsTruthy()
    {
      match this
      case StrValue(s) => s != ""
      case NumValue(n) => JsNumbers.IsTruthy(n)
      case ListValue(_) => true
      case NullValue => false
    }
  }

  datatype Filter = Filter(property: Property, operator: Operator, value: FilterValue)
}
