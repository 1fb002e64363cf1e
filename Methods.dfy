/**
 * The data pipeline of the product finder: the display-name table and its
 * lookup, normalization of raw products into flat rows, and the
 * single-clause product filter.
 */
module Methods {
  import opened Wrappers
  import opened JsStrings
  import opened JsNumbers
  import opened Seqs
  import opened Types

  // ---------------------------------------------------------------------
  // The display-name table and getPropertyKey
  // ---------------------------------------------------------------------

  /** Catalog display name to product field. */
  const PropertyNameMapping: map<string, Field> := map[
    "Product Name" := ProductName,
    "color" := Color,
    "weight (oz)" := Weight,
    "category" := Category,
    "wireless" := Wireless
  ]

  /**
   * The members every plain JavaScript object inherits from
   * `Object.prototype`; indexing the table with one of these names yields
   * that member, which is truthy.
   */
  const ObjectPrototypeMembers: set<string> := {
    "constructor", "hasOwnProperty", "isPrototypeOf", "propertyIsEnumerable",
    "toLocaleString", "toString", "valueOf", "__proto__",
    "__defineGetter__", "__defineSetter__", "__lookupGetter__", "__lookupSetter__"
  }

  /** What indexing the table object with a name yields. */
  datatype Lookup = OwnEntry(field: Field) | Inherited(member: string) | Undefined

  /** `PropertyNameMapping[name]` on the object literal. */
  function LookupMapping(name: string): (r: Lookup)
    ensures r.OwnEntry? <==> name in PropertyNameMapping
    ensures r.Inherited? <==> name in ObjectPrototypeMembers
  {
    if name in PropertyNameMapping then OwnEntry(PropertyNameMapping[name])
    else if name in ObjectPrototypeMembers then Inherited(name)
    else Undefined
  }

  const InvalidKeyMessage := "Provided property key is not valid"

  datatype KeyError = InvalidPropertyKey(message: string)

  /** getPropertyKey as the object lookup behaves: every truthy lookup is returned. */
  function GetPropertyKeyAsWritten(name: string): (r: Result<Lookup, KeyError>)
    ensures r.Err? <==> name !in PropertyNameMapping && name !in ObjectPrototypeMembers
  {
    var key := LookupMapping(name);
    if !key.Undefined? then Ok(key) else Err(InvalidPropertyKey(InvalidKeyMessage))
  }

  /** getPropertyKey: the field for one of the five display names, the key error for any other name. */
  function GetPropertyKey(name: string): (r: Result<Field, KeyError>)
    ensures r.Ok? <==> name in {"Product Name", "color", "weight (oz)", "category", "wireless"}
    ensures r.Err? ==> r.error == InvalidPropertyKey(InvalidKeyMessage)
  {
    match LookupMapping(name)
    case OwnEntry(f) => Ok(f)
    case _ => Err(InvalidPropertyKey(InvalidKeyMessage))
  }

  // ---------------------------------------------------------------------
  // normalizeProducts
  // ---------------------------------------------------------------------

  /** `properties.find(p => p.id === id)`: the first catalog entry with that id. */
  function FindProperty(properties: seq<Property>, id: int): (r: Option<Property>)
    ensures r.None? <==> forall i :: 0 <= i < |properties| ==> properties[i].id != id
    ensures r.Some? ==> exists i :: 0 <= i < |properties| && properties[i] == r.value && FirstWithId(properties, id, i)
  {
    if properties == [] then None
    else if properties[0].id == id then
      assert FirstWithId(properties, id, 0);
      Some(properties[0])
    else
      var r := FindProperty(properties[1..], id);
      if r.Some? then
        var i :| 0 <= i < |properties| - 1 && properties[1..][i] == r.value && FirstWithId(properties[1..], id, i);
        assert FirstWithId(properties, id, i + 1);
        r
      else
        r
  }

  /** Index `i` holds the first catalog entry with the given id. */
  predicate FirstWithId(properties: seq<Property>, id: int, i: int)
  {
    0 <= i < |properties| && properties[i].id == id && forall j :: 0 <= j < i ==> properties[j].id != id
  }

  /** The `switch (prop.type)`: the coerced value, `None` standing for `undefined`. */
  function Coerce(t: PropertyType, raw: Value): (r: Option<Value>)
    ensures r.None? <==> t.OtherType?
    ensures t.StringType? ==> r.value.Str? && r.value.s == raw.ToString()
    ensures t.NumberType? ==> r.value.Num? && r.value.n == raw.ToNumber()
    ensures t.Enumerated? ==> r == Some(raw)
  {
    match t
    case StringType => Some(Str(raw.ToString()))
    case NumberType => Some(Num(raw.ToNumber()))
    case Enumerated => Some(raw)
    case OtherType(_) => None
  }

  /**
   * What one `property_values` entry writes into the five fields: nothing
   * when its id matches no catalog entry, when the coerced value is falsy,
   * or when the catalog name is not in the table (the write then goes to a
   * junk key outside the five fields).
   */
  function EntryWrite(entry: ProductProperty, properties: seq<Property>): (w: Option<(Field, Value)>)
    ensures FindProperty(properties, entry.propertyId).None? ==> w.None?
    ensures w.Some? ==> w.value.1.IsTruthy()
    ensures w.Some? ==> var prop := FindProperty(properties, entry.propertyId).value;
      && LookupMapping(prop.name) == OwnEntry(w.value.0)
      && Coerce(prop.valueType, entry.value) == Some(w.value.1)
    ensures var p := FindProperty(properties, entry.propertyId);
      && p.Some?
      && Coerce(p.value.valueType, entry.value).Some?
      && Coerce(p.value.valueType, entry.value).value.IsTruthy()
      && LookupMapping(p.value.name).OwnEntry?
      ==> w == Some((LookupMapping(p.value.name).field, Coerce(p.value.valueType, entry.value).value))
  {
    match FindProperty(properties, entry.propertyId)
    case None => None
    case Some(prop) =>
      match Coerce(prop.valueType, entry.value)
      case None => None
      case Some(v) =>
        if !v.IsTruthy() then None
        else
          match LookupMapping(prop.name)
          case OwnEntry(f) => Some((f, v))
          case _ => None
  }

  function ApplyEntry(row: Product, entry: ProductProperty, properties: seq<Property>): (r: Product)
    ensures r.id == row.id
    ensures forall g :: (EntryWrite(entry, properties).None? || EntryWrite(entry, properties).value.0 != g)
                        ==> r.Get(g) == row.Get(g)
  {
    match EntryWrite(entry, properties)
    case None => row
    case Some((f, v)) => row.With(f, v)
  }

  /** The `forEach` over the entries, in order, as a left fold. */
  function ApplyEntries(row: Product, entries: seq<ProductProperty>, properties: seq<Property>): (r: Product)
    ensures r.id == row.id
    decreases |entries|
  {
    if entries == [] then row
    else ApplyEntry(ApplyEntries(row, entries[..|entries| - 1], properties), entries[|entries| - 1], properties)
  }

  /** `{ id: product.id }`: a row with no field set. */
  function EmptyRow(id: int): Product
  {
    Product(id, None, None, None, None, None)
  }

  function NormalizeRow(product: RawProduct, properties: seq<Property>): (r: Product)
    ensures r.id == product.id
  {
    ApplyEntries(EmptyRow(product.id), product.propertyValues, properties)
  }

  /** normalizeProducts: one row per raw product, in order, carrying its id. */
  function Normalize(products: seq<RawProduct>, properties: seq<Property>): (rows: seq<Product>)
    ensures |rows| == |products|
    ensures forall i :: 0 <= i < |products| ==> rows[i].id == products[i].id
  {
    seq(|products|, i requires 0 <= i < |products| => NormalizeRow(products[i], properties))
  }

  /** The body of the `products.map` callback: builds one flat row entry by entry. */
  method NormalizeProduct(product: RawProduct, properties: seq<Property>) returns (flat: Product)
    ensures flat == NormalizeRow(product, properties)
  {
    flat := EmptyRow(product.id);
    var entries := product.propertyValues;
    for i := 0 to |entries|
      invariant flat == ApplyEntries(EmptyRow(product.id), entries[..i], properties)
    {
      assert entries[..i + 1][..i] == entries[..i];
      ghost var before := flat;
      var entry := entries[i];
      var prop := FindProperty(properties, entry.propertyId);
      if prop.Some? {
        var value: Option<Value>;
        match prop.value.valueType {
          case StringType => value := Some(Str(entry.value.ToString()));
          case NumberType => value := Some(Num(entry.value.ToNumber()));
          case Enumerated => value := Some(entry.value);
          case OtherType(_) => value := None;
        }
        assert value == Coerce(prop.value.valueType, entry.value);
        if value.Some? && value.value.IsTruthy() {
          match LookupMapping(prop.value.name) {
            case OwnEntry(f) => flat := flat.With(f, value.value);
            case _ =>
          }
        }
      }
      assert flat == ApplyEntry(before, entry, properties);
    }
    assert entries[..|entries|] == entries;
  }

  /** normalizeProducts: maps every raw product to its flat row. */
  method NormalizeProducts(products: seq<RawProduct>, properties: seq<Property>) returns (rows: seq<Product>)
    ensures rows == Normalize(products, properties)
  {
    rows := [];
    for i := 0 to |products|
      invariant |rows| == i
      invariant forall k :: 0 <= k < i ==> rows[k] == NormalizeRow(products[k], properties)
    {
      var row := NormalizeProduct(products[i], properties);
      rows := rows + [row];
    }
  }

  // ---------------------------------------------------------------------
  // filterProducts
  // ---------------------------------------------------------------------

  /** The operator tags the filter tells apart; any other tag is `Unrecognised`. */
  datatype OperatorKind = Equals | GreaterThan | LessThan | AnyValue | NoValue | In | Contains | Unrecognised(tag: string)

  function KindOf(id: string): (k: OperatorKind)
    ensures k.Unrecognised? <==> id !in {"any", "none", "equals", "greater_than", "less_than", "in", "contains"}
    ensures k.Unrecognised? ==> k.tag == id
  {
    if id == "any" then AnyValue
    else if id == "none" then NoValue
    else if id == "equals" then Equals
    else if id == "greater_than" then GreaterThan
    else if id == "less_than" then LessThan
    else if id == "in" then In
    else if id == "contains" then Contains
    else Unrecognised(id)
  }

  /** `String(productValue)`, where an absent field is `undefined`. */
  function FieldString(field: Option<Value>): string
  {
    match field
    case None => "undefined"
    case Some(v) => v.ToString()
  }

  /**
   * `valuesArray` of the `in` operator: the stringified value split on
   * commas, each token lower-cased and stripped of its first space; no
   * tokens at all when the value is falsy.
   */
  function InTokens(value: FilterValue): (tokens: seq<string>)
    ensures !value.IsTruthy() ==> tokens == []
    ensures value.IsTruthy() ==> |tokens| == Count(value.ToString(), ',') + 1
  {
    if value.IsTruthy() then
      var parts := Split(value.ToString(), ',');
      SplitCount(value.ToString(), ',');
      seq(|parts|, i requires 0 <= i < |parts| => RemoveFirstSpace(Lower(parts[i])))
    else []
  }

  /** The `products.filter` callback for one field value. */
  predicate Keeps(kind: OperatorKind, field: Option<Value>, value: FilterValue, tokens: seq<string>)
  {
    match kind
    case AnyValue => field.Some?
    case NoValue => field.None?
    case Equals =>
      (match field
       case Some(Num(n)) => value.NumValue? && StrictEquals(n, value.n)
       case Some(Str(s)) => Lower(s) == Lower(value.ToString())
       case None => false)
    case GreaterThan => field.Some? && field.value.Num? && IsGreater(field.value.n, value.ToNumber())
    case LessThan => field.Some? && field.value.Num? && IsLess(field.value.n, value.ToNumber())
    case In => Lower(FieldString(field)) in tokens
    case Contains => field.Some? && field.value.Str? && value.StrValue? && Includes(Lower(field.value.s), Lower(value.s))
    case Unrecognised(_) => true
  }

  /** Whether a product passes the clause, once its property resolved to `key`. */
  predicate Matches(filter: Filter, key: Field, p: Product)
  {
    var kind := KindOf(filter.operator.id);
    var tokens := if kind == In then InTokens(filter.value) else [];
    Keeps(kind, p.Get(key), filter.value, tokens)
  }

  /** The "no active filter" state: no clause, or a clause whose value is the empty string. */
  predicate IsInactive(filter: Option<Filter>)
  {
    filter.None? || filter.value.value == StrValue("")
  }

  /**
   * filterProducts: the input unchanged when no filter is active; otherwise
   * the key error for an unknown property name (whatever the products), or
   * the products that pass the clause, in their original order.
   */
  function FilterProducts(products: seq<Product>, filter: Option<Filter>): (r: Result<seq<Product>, KeyError>)
    ensures IsInactive(filter) ==> r == Ok(products)
    ensures !IsInactive(filter) ==> (r.Err? <==> filter.value.property.name !in PropertyNameMapping)
    ensures r.Ok? ==> |r.value| <= |products| && multiset(r.value) <= multiset(products)
  {
    if IsInactive(filter) then Ok(products)
    else
      var f := filter.value;
      match GetPropertyKey(f.property.name)
      case Err(e) => Err(e)
      case Ok(key) => Ok(Seqs.Filter(products, p => Matches(f, key, p)))
  }

  // ---------------------------------------------------------------------
  // filterProducts with the lookup as the object literal behaves
  // ---------------------------------------------------------------------

  /**
   * `product[propertyKey]` for a key from the lookup as written: an
   * inherited member is none of the five fields, so it reads as absent.
   */
  function ReadKey(p: Product, key: Lookup): Option<Value>
  {
    match key
    case OwnEntry(f) => p.Get(f)
    case _ => None
  }

  /** Whether a product passes the clause, once its property resolved to `key` as written. */
  predicate MatchesAsWritten(filter: Filter, key: Lookup, p: Product)
  {
    var kind := KindOf(filter.operator.id);
    var tokens := if kind == In then InTokens(filter.value) else [];
    Keeps(kind, ReadKey(p, key), filter.value, tokens)
  }

  /**
   * filterProducts with getPropertyKey as written: a name of an
   * `Object.prototype` member is accepted, and every product then reads the
   * property as absent.
   */
  function FilterProductsAsWritten(products: seq<Product>, filter: Option<Filter>): (r: Result<seq<Product>, KeyError>)
    ensures IsInactive(filter) ==> r == Ok(products)
    ensures !IsInactive(filter) ==>
      (r.Err? <==> filter.value.property.name !in PropertyNameMapping && filter.value.property.name !in ObjectPrototypeMembers)
    ensures r.Ok? ==> |r.value| <= |products| && multiset(r.value) <= multiset(products)
  {
    if IsInactive(filter) then Ok(products)
    else
      var f := filter.value;
      match GetPropertyKeyAsWritten(f.property.name)
      case Err(e) => Err(e)
      case Ok(key) => Ok(Seqs.Filter(products, p => MatchesAsWritten(f, key, p)))
  }
}
