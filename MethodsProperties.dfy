/**
 * Properties of the data pipeline that relate several calls: the key table
 * and its inverse, what normalization keeps and drops, and what each filter
 * operator selects.
 */
module MethodsProperties {
  import opened Wrappers
  import opened JsStrings
  import opened JsNumbers
  import opened Seqs
  import opened Types
  import opened Methods

  // ---------------------------------------------------------------------
  // getPropertyKey
  // ---------------------------------------------------------------------

  /** The display name the table maps to each field. */
  function DisplayName(f: Field): string
  {
    match f
    case ProductName => "Product Name"
    case Color => "color"
    case Weight => "weight (oz)"
    case Category => "category"
    case Wireless => "wireless"
  }

  /** The table is a bijection between the five display names and the five fields. */
  lemma GetPropertyKeyInverse(name: string, f: Field)
    ensures GetPropertyKey(DisplayName(f)) == Ok(f)
    ensures GetPropertyKey(name) == Ok(f) ==> name == DisplayName(f)
  {
  }

  /**
   * As written, the lookup on the object literal also succeeds for the
   * names of members inherited from `Object.prototype`, which are not
   * display names; the corrected lookup rejects them.
   */
  lemma AsWrittenAcceptsPrototypeNames(name: string)
    requires name in ObjectPrototypeMembers
    ensures GetPropertyKeyAsWritten(name).Ok?
    ensures GetPropertyKey(name) == Err(InvalidPropertyKey(InvalidKeyMessage))
  {
  }

  // ---------------------------------------------------------------------
  // normalizeProducts
  // ---------------------------------------------------------------------

  /** Entry `e` writes something into field `f`. */
  predicate WritesField(e: ProductProperty, properties: seq<Property>, f: Field)
  {
    EntryWrite(e, properties).Some? && EntryWrite(e, properties).value.0 == f
  }

  /** Every field present in a folded row holds a truthy value (given a start row where that holds). */
  lemma {:induction false} ApplyEntriesTruthy(row: Product, entries: seq<ProductProperty>, properties: seq<Property>, f: Field)
    requires row.Get(f).Some? ==> row.Get(f).value.IsTruthy()
    ensures var r := ApplyEntries(row, entries, properties);
      r.Get(f).Some? ==> r.Get(f).value.IsTruthy()
    decreases |entries|
  {
    if entries != [] {
      ApplyEntriesTruthy(row, entries[..|entries| - 1], properties, f);
    }
  }

  /** A normalized row never holds an empty string, a zero or NaN: such values are left out. */
  lemma NormalizedFieldsTruthy(product: RawProduct, properties: seq<Property>, f: Field)
    ensures var r := NormalizeRow(product, properties);
      r.Get(f).Some? ==> r.Get(f).value.IsTruthy()
  {
    ApplyEntriesTruthy(EmptyRow(product.id), product.propertyValues, properties, f);
  }

  /** An entry whose property id matches no catalog entry can be dropped anywhere without changing the row. */
  lemma {:induction false} UnmatchedEntryIgnored(row: Product, before: seq<ProductProperty>, e: ProductProperty,
                                                 after: seq<ProductProperty>, properties: seq<Property>)
    requires forall i :: 0 <= i < |properties| ==> properties[i].id != e.propertyId
    ensures ApplyEntries(row, before + [e] + after, properties) == ApplyEntries(row, before + after, properties)
    decreases |after|
  {
    if after == [] {
      assert before + [e] + after == before + [e];
      assert (before + [e])[..|before|] == before;
      assert before + after == before;
    } else {
      var n := |after| - 1;
      UnmatchedEntryIgnored(row, before, e, after[..n], properties);
      assert (before + [e] + after)[..|before| + 1 + n] == before + [e] + after[..n];
      assert (before + after)[..|before| + n] == before + after[..n];
    }
  }

  /** Only the first catalog entry carrying the entry's id decides the coercion and the target field. */
  lemma FirstMatchDecides(e: ProductProperty, properties: seq<Property>, i: nat)
    requires FirstWithId(properties, e.propertyId, i)
    ensures EntryWrite(e, properties) == EntryWrite(e, [properties[i]])
  {
    var r := FindProperty(properties, e.propertyId);
    var j :| 0 <= j < |properties| && properties[j] == r.value && FirstWithId(properties, e.propertyId, j);
    assert j == i;
    assert FindProperty([properties[i]], e.propertyId) == Some(properties[i]);
  }

  /**
   * A number-typed entry whose raw text is blank (it converts to 0) or
   * contains a character no number has (it converts to NaN) is left out.
   */
  lemma NumberFalsyOmitted(row: Product, e: ProductProperty, properties: seq<Property>, k: nat)
    requires var p := FindProperty(properties, e.propertyId); p.Some? && p.value.valueType == NumberType
    requires e.value.Str?
    requires (forall i :: 0 <= i < |e.value.s| ==> IsJsWhitespace(e.value.s[i]))
          || (k < |e.value.s| && !IsJsWhitespace(e.value.s[k]) && !IsDigit(e.value.s[k])
              && e.value.s[k] != '.' && e.value.s[k] != '+' && e.value.s[k] != '-')
    ensures ApplyEntry(row, e, properties) == row
  {
    if forall i :: 0 <= i < |e.value.s| ==> IsJsWhitespace(e.value.s[i]) {
      BlankIsZero(e.value.s);
    } else {
      ForeignCharIsNaN(e.value.s, k);
    }
  }

  /**
   * A string-typed entry whose catalog name is in the table stores the
   * string form of its raw value in that field, unless that string is
   * empty; the id and the other fields are untouched.
   */
  lemma StringTypedStored(row: Product, e: ProductProperty, properties: seq<Property>, f: Field)
    requires var p := FindProperty(properties, e.propertyId);
      p.Some? && p.value.valueType == StringType && GetPropertyKey(p.value.name) == Ok(f)
    ensures var r := ApplyEntry(row, e, properties);
      && r.id == row.id
      && r.Get(f) == (if e.value.ToString() == "" then row.Get(f) else Some(Str(e.value.ToString())))
      && forall g :: g != f ==> r.Get(g) == row.Get(g)
  {
  }

  /**
   * A number-typed entry whose catalog name is in the table stores its
   * raw value converted by `Number`, unless that number is 0 or NaN; the
   * id and the other fields are untouched.
   */
  lemma NumberTypedStored(row: Product, e: ProductProperty, properties: seq<Property>, f: Field)
    requires var p := FindProperty(properties, e.propertyId);
      p.Some? && p.value.valueType == NumberType && GetPropertyKey(p.value.name) == Ok(f)
    ensures var r := ApplyEntry(row, e, properties);
      && r.id == row.id
      && r.Get(f) == (if IsTruthy(e.value.ToNumber()) then Some(Num(e.value.ToNumber())) else row.Get(f))
      && forall g :: g != f ==> r.Get(g) == row.Get(g)
  {
  }

  /**
   * An enumerated entry whose catalog name is in the table stores its raw
   * value as it is, unless that value is falsy; the id and the other
   * fields are untouched.
   */
  lemma EnumeratedStored(row: Product, e: ProductProperty, properties: seq<Property>, f: Field)
    requires var p := FindProperty(properties, e.propertyId);
      p.Some? && p.value.valueType == Enumerated && GetPropertyKey(p.value.name) == Ok(f)
    ensures var r := ApplyEntry(row, e, properties);
      && r.id == row.id
      && r.Get(f) == (if e.value.IsTruthy() then Some(e.value) else row.Get(f))
      && forall g :: g != f ==> r.Get(g) == row.Get(g)
  {
  }

  /** The text "5.2" of a number-typed weight entry is stored as the number 5.2. */
  lemma WeightFromText(row: Product, e: ProductProperty, properties: seq<Property>)
    requires e.value == Str("5.2")
    requires var p := FindProperty(properties, e.propertyId);
      p.Some? && p.value.valueType == NumberType && p.value.name == "weight (oz)"
    ensures ApplyEntry(row, e, properties).weight == Some(Num(Dec(52, 1)))
  {
    FivePointTwo();
    NumberTypedStored(row, e, properties, Weight);
  }

  /** `Number("5.2")` is 52 tenths. */
  lemma FivePointTwo()
    ensures ParseNumber("5.2") == Dec(52, 1)
  {
    ParseUnsignedDecimal("5", "2");
    assert "5" + "." + "2" == "5.2";
    assert DigitsValue("5" + "2") == 52 by {
      assert ("5" + "2")[..1] == "5";
    }
    NoTrim("5.2");
  }

  /** A field that no entry writes keeps its starting value. */
  lemma {:induction false} UnwrittenFieldKept(row: Product, entries: seq<ProductProperty>, properties: seq<Property>, f: Field)
    requires forall j :: 0 <= j < |entries| ==> !WritesField(entries[j], properties, f)
    ensures ApplyEntries(row, entries, properties).Get(f) == row.Get(f)
    decreases |entries|
  {
    if entries != [] {
      var n := |entries| - 1;
      assert forall j :: 0 <= j < n ==> entries[..n][j] == entries[j];
      UnwrittenFieldKept(row, entries[..n], properties, f);
    }
  }

  /**
   * Entries are applied in order and a later write to a field overwrites an
   * earlier one: a field holds the value of the last entry that writes it.
   */
  lemma {:induction false} LastWriteWins(row: Product, entries: seq<ProductProperty>, properties: seq<Property>, f: Field, j: nat)
    requires j < |entries| && WritesField(entries[j], properties, f)
    requires forall k :: j < k < |entries| ==> !WritesField(entries[k], properties, f)
    ensures ApplyEntries(row, entries, properties).Get(f) == Some(EntryWrite(entries[j], properties).value.1)
    decreases |entries|
  {
    var n := |entries| - 1;
    if j < n {
      assert forall k :: j < k < n ==> entries[..n][k] == entries[k];
      LastWriteWins(row, entries[..n], properties, f, j);
    }
  }

  // ---------------------------------------------------------------------
  // filterProducts
  // ---------------------------------------------------------------------

  /**
   * An active clause on a known property selects an order-preserving
   * subsequence of the products: exactly those that match the clause, each
   * as often as it occurs in the input.
   */
  lemma FilterSelects(products: seq<Product>, f: Filter, key: Field, p: Product)
    requires !IsInactive(Some(f)) && GetPropertyKey(f.property.name) == Ok(key)
    ensures FilterProducts(products, Some(f)).Ok?
    ensures IsSubsequence(FilterProducts(products, Some(f)).value, products)
    ensures p in FilterProducts(products, Some(f)).value <==> p in products && Matches(f, key, p)
    ensures multiset(FilterProducts(products, Some(f)).value)[p]
         == if Matches(f, key, p) then multiset(products)[p] else 0
  {
    FilterIsSubsequence(products, p => Matches(f, key, p));
    FilterMembers(products, p => Matches(f, key, p), p);
    FilterCounts(products, p => Matches(f, key, p), p);
  }

  /**
   * The two lookups agree on the five display names, so there the filter
   * as written and the corrected filter return the same result.
   */
  lemma AsWrittenAgreesOnTableNames(products: seq<Product>, filter: Option<Filter>)
    requires filter.Some? ==> filter.value.property.name in PropertyNameMapping
    ensures FilterProductsAsWritten(products, filter) == FilterProducts(products, filter)
  {
    if !IsInactive(filter) {
      var f := filter.value;
      var key := GetPropertyKey(f.property.name).value;
      assert GetPropertyKeyAsWritten(f.property.name) == Ok(OwnEntry(key));
      FilterAgree(products, p => MatchesAsWritten(f, OwnEntry(key), p), p => Matches(f, key, p));
    }
  }

  /**
   * On the name of an `Object.prototype` member (such as "constructor") the
   * filter as written raises no error and reads every product's property as
   * absent: `none` keeps every product and `any` keeps none. The corrected
   * filter reports the key error instead.
   */
  lemma PrototypeNameReadsAbsent(products: seq<Product>, property: Property, op: Operator, value: FilterValue)
    requires property.name in ObjectPrototypeMembers && value != StrValue("")
    requires op.id == "none" || op.id == "any"
    ensures var f := Some(Filter(property, op, value));
      && FilterProductsAsWritten(products, f) == Ok(if op.id == "none" then products else [])
      && FilterProducts(products, f) == Err(InvalidPropertyKey(InvalidKeyMessage))
  {
    var f := Filter(property, op, value);
    var key := Inherited(property.name);
    assert GetPropertyKeyAsWritten(property.name) == Ok(key);
    if op.id == "none" {
      FilterAll(products, p => MatchesAsWritten(f, key, p));
    } else {
      FilterNone(products, p => MatchesAsWritten(f, key, p));
    }
  }

  /** Filtering the result again with the same clause changes nothing. */
  lemma FilterProductsIdempotent(products: seq<Product>, filter: Option<Filter>)
    requires FilterProducts(products, filter).Ok?
    ensures FilterProducts(FilterProducts(products, filter).value, filter) == FilterProducts(products, filter)
  {
    if !IsInactive(filter) {
      var f := filter.value;
      var key := GetPropertyKey(f.property.name).value;
      FilterIdempotent(products, p => Matches(f, key, p));
    }
  }

  /** An unrecognised operator tag keeps every product. */
  lemma UnrecognisedKeepsAll(products: seq<Product>, f: Filter)
    requires !IsInactive(Some(f)) && f.property.name in PropertyNameMapping
    requires KindOf(f.operator.id).Unrecognised?
    ensures FilterProducts(products, Some(f)) == Ok(products)
  {
    var key := GetPropertyKey(f.property.name).value;
    FilterAll(products, p => Matches(f, key, p));
  }

  /** `any` and `none` on the same property split the products: each occurrence lands in exactly one result. */
  lemma AnyNonePartition(products: seq<Product>, property: Property, anyOp: Operator, noneOp: Operator, value: FilterValue)
    requires anyOp.id == "any" && noneOp.id == "none"
    requires value != StrValue("") && property.name in PropertyNameMapping
    ensures var a := FilterProducts(products, Some(Filter(property, anyOp, value)));
      var b := FilterProducts(products, Some(Filter(property, noneOp, value)));
      a.Ok? && b.Ok? && multiset(a.value) + multiset(b.value) == multiset(products)
  {
    var key := GetPropertyKey(property.name).value;
    var fa := Filter(property, anyOp, value);
    var fb := Filter(property, noneOp, value);
    FilterPartition(products, p => Matches(fa, key, p), p => Matches(fb, key, p));
  }

  /** `greater_than` and `less_than` keep only products whose field holds a number other than NaN. */
  lemma ComparisonsNeedNumber(products: seq<Product>, f: Filter, p: Product)
    requires !IsInactive(Some(f)) && f.property.name in PropertyNameMapping
    requires KindOf(f.operator.id) in {GreaterThan, LessThan}
    requires FilterProducts(products, Some(f)).Ok? && p in FilterProducts(products, Some(f)).value
    ensures var v := p.Get(GetPropertyKey(f.property.name).value);
      v.Some? && v.value.Num? && v.value.n.Dec?
  {
    var key := GetPropertyKey(f.property.name).value;
    FilterMembers(products, p => Matches(f, key, p), p);
  }

  /**
   * For a numeric field and a number as the value (neither NaN), exactly
   * one of `equals`, `greater_than` and `less_than` keeps the product.
   */
  lemma NumericTrichotomy(n: Number, m: Number)
    requires n.Dec? && m.Dec?
    ensures var field := Some(Num(n));
      var value := NumValue(m);
      var e := Keeps(Equals, field, value, []);
      var g := Keeps(GreaterThan, field, value, []);
      var l := Keeps(LessThan, field, value, []);
      (e || g || l) && !(e && g) && !(e && l) && !(g && l)
  {
  }

  /** `equals` compares a numeric field strictly: a string value never equals it, whatever its digits. */
  lemma EqualsNumberNeverString(n: Number, s: string, tokens: seq<string>)
    ensures !Keeps(Equals, Some(Num(n)), StrValue(s), tokens)
  {
  }

  /**
   * `equals` on a string field ignores ASCII case: fields that differ only in
   * the case of their letters get the same verdict, and a field equals a
   * value that differs from it only in case.
   */
  lemma EqualsIgnoresCase(s: string, t: string, value: FilterValue)
    requires SameUpToCase(s, t)
    ensures Keeps(Equals, Some(Str(s)), value, []) == Keeps(Equals, Some(Str(t)), value, [])
    ensures Keeps(Equals, Some(Str(s)), StrValue(t), [])
  {
    LowerEqualIff(s, t);
  }

  /** `contains` ignores ASCII case in the field and in the value. */
  lemma ContainsIgnoresCase(s: string, s': string, v: string, v': string)
    requires SameUpToCase(s, s') && SameUpToCase(v, v')
    ensures Keeps(Contains, Some(Str(s)), StrValue(v), []) == Keeps(Contains, Some(Str(s')), StrValue(v'), [])
  {
    LowerEqualIff(s, s');
    LowerEqualIff(v, v');
  }

  /** `in` compares the field lower-cased, so fields that differ only in case get the same verdict. */
  lemma InIgnoresCase(s: string, t: string, value: FilterValue, tokens: seq<string>)
    requires SameUpToCase(s, t)
    ensures Keeps(In, Some(Str(s)), value, tokens) == Keeps(In, Some(Str(t)), value, tokens)
  {
    LowerEqualIff(s, t);
  }

  /**
   * `in` with one word (no comma, no space) keeps a string or absent field
   * exactly when its text is that word up to ASCII case; an absent field
   * reads as the text "undefined".
   */
  lemma InSingleWord(field: Option<Value>, w: string)
    requires w != "" && ',' !in w && ' ' !in w
    requires field.None? || field.value.Str?
    ensures Keeps(In, field, StrValue(w), InTokens(StrValue(w))) <==> SameUpToCase(FieldString(field), w)
  {
    InTokensSingle(w);
    LowerKeepsPunctuation(w);
    RemoveFirstSpaceNone(Lower(w));
    LowerEqualIff(FieldString(field), w);
  }

  /**
   * So the value "undefined" keeps a product that lacks the field, and keeps
   * a product with a string field only when that field is "undefined" up to
   * case.
   */
  lemma InUndefinedKeepsAbsent(field: Option<Value>)
    requires field.None? || field.value.Str?
    ensures Keeps(In, field, StrValue("undefined"), InTokens(StrValue("undefined")))
        <==> field.None? || SameUpToCase(field.value.s, "undefined")
  {
    var u := "undefined";
    assert ',' !in u && ' ' !in u;
    InSingleWord(field, u);
    assert SameUpToCase(u, u);
  }

  /** `in` keeps a product exactly when its lower-cased stringified field is one of the tokens. */
  lemma InKeepsExactly(products: seq<Product>, f: Filter, key: Field, p: Product)
    requires !IsInactive(Some(f)) && GetPropertyKey(f.property.name) == Ok(key)
    requires KindOf(f.operator.id) == In
    ensures p in FilterProducts(products, Some(f)).value
            <==> p in products && Lower(FieldString(p.Get(key))) in InTokens(f.value)
  {
    FilterMembers(products, p => Matches(f, key, p), p);
  }

  /** A falsy value (null, 0, NaN) gives `in` no tokens, so `in` then keeps nothing. */
  lemma InFalsyKeepsNothing(products: seq<Product>, f: Filter)
    requires !IsInactive(Some(f)) && f.property.name in PropertyNameMapping
    requires KindOf(f.operator.id) == In && !f.value.IsTruthy()
    ensures FilterProducts(products, Some(f)) == Ok([])
  {
  }

  /** `contains` keeps a product exactly when field and value are strings and the value occurs in the field, ignoring case. */
  lemma ContainsKeepsExactly(products: seq<Product>, f: Filter, key: Field, p: Product)
    requires !IsInactive(Some(f)) && GetPropertyKey(f.property.name) == Ok(key)
    requires KindOf(f.operator.id) == Contains
    ensures p in FilterProducts(products, Some(f)).value
            <==> && p in products && p.Get(key).Some? && p.Get(key).value.Str? && f.value.StrValue?
                 && exists i :: OccursAt(Lower(p.Get(key).value.s), Lower(f.value.s), i)
  {
    FilterMembers(products, p => Matches(f, key, p), p);
    if p.Get(key).Some? && p.Get(key).value.Str? && f.value.StrValue? {
      IncludesIff(Lower(p.Get(key).value.s), Lower(f.value.s));
    }
  }

  /** The `in` tokens of a value without commas: the value, lower-cased, with its first space removed. */
  lemma InTokensSingle(s: string)
    requires s != "" && ',' !in s
    ensures InTokens(StrValue(s)) == [RemoveFirstSpace(Lower(s))]
  {
    SplitNoSeparator(s, ',');
  }

  /**
   * A comma-and-space separated pair of space-free items yields the two
   * items lower-cased: the space after the comma is the one removed
   * (the value "Electronics, Mobile" gives "electronics" and "mobile").
   */
  lemma {:induction false} InTokensCommaSpace(a: string, b: string)
    requires ',' !in a && ',' !in b && ' ' !in a && ' ' !in b
    ensures InTokens(StrValue(a + ", " + b)) == [Lower(a), Lower(b)]
  {
    var s := a + ", " + b;
    var parts := Split(s, ',');
    CommaSpaceSplit(a, b);
    assert parts == [a, " " + b];
    SpaceFreeToken(a);
    LeadingSpaceToken(b);
  }

  lemma CommaSpaceSplit(a: string, b: string)
    requires ',' !in a && ',' !in b
    ensures Split(a + ", " + b, ',') == [a, " " + b]
  {
    assert a + ", " + b == a + [','] + (" " + b);
    assert ',' !in " " + b;
    SplitNoSeparator(" " + b, ',');
    SplitPrefix(a, " " + b, ',');
  }

  /** A token without a space is only lower-cased. */
  lemma SpaceFreeToken(a: string)
    requires ' ' !in a
    ensures RemoveFirstSpace(Lower(a)) == Lower(a)
  {
    LowerKeepsPunctuation(a);
    RemoveFirstSpaceNone(Lower(a));
  }

  /** A token after ", " loses the space it starts with. */
  lemma LeadingSpaceToken(b: string)
    ensures RemoveFirstSpace(Lower(" " + b)) == Lower(b)
  {
    LowerAppend(" ", b);
    assert Lower(" ") == " ";
    RemoveFirstSpaceAt("", Lower(b));
    assert "" + " " + Lower(b) == " " + Lower(b);
  }

  /**
   * Because the first space of each `in` token is removed wherever it is,
   * `in "x y"` does not keep a product whose field is "x y" (when "x" has
   * no space), while `equals "x y"` does.
   */
  lemma {:induction false} InteriorSpaceNeverMatches(a: string, b: string)
    requires ',' !in a && ',' !in b && ' ' !in a
    ensures var s := a + " " + b;
      && InTokens(StrValue(s)) == [Lower(a) + Lower(b)]
      && !Keeps(In, Some(Str(s)), StrValue(s), InTokens(StrValue(s)))
      && Keeps(Equals, Some(Str(s)), StrValue(s), [])
  {
    var s := a + " " + b;
    assert ',' !in s;
    InTokensSingle(s);
    LowerAppend(a, " " + b);
    LowerAppend(" ", b);
    assert Lower(" ") == " ";
    assert Lower(s) == Lower(a) + " " + Lower(b);
    LowerKeepsPunctuation(a);
    RemoveFirstSpaceAt(Lower(a), Lower(b));
    assert |Lower(s)| != |Lower(a) + Lower(b)|;
  }
}
