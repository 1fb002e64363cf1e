# Product finder data pipeline, in Dafny

This project models the data pipeline of a small product-browsing UI
(`src/data/methods.ts`). The pipeline has three operations:

- `normalizeProducts` turns raw products into flat rows. A raw product is
  a sparse list of (property id, value) entries. Each entry is resolved
  against a property catalog, its value is coerced by the property's
  declared type, and the value is stored under one of five fixed fields
  (`productName`, `color`, `weight`, `category`, `wireless`).
- `getPropertyKey` is meant to map a catalog display name to its field
  and throw for any other name. As written it also accepts the names of
  the members every object inherits, such as "constructor" (see
  "## Findings").
- `filterProducts` applies at most one clause (property, operator, value)
  and keeps the rows that pass it, in order.

Everything is pure and works on immutable sequences. The one loop in the
source that mutates state, the per-product `forEach` that fills a mutable
`flatProduct`, is modelled twice (the `products.map` around it with it):

- as a left fold (`Methods.ApplyEntries`), which the lemmas use;
- as methods with loops (`Methods.NormalizeProduct`,
  `Methods.NormalizeProducts`), proved equal to the fold.

Modules:

- `Wrappers`: `Option` and `Result`.
- `JsStrings`: ASCII `toLowerCase`, `includes`, `split` on one character,
  `join`, and `replace(" ", "")`.
- `JsNumbers`: JavaScript numbers as exact decimals plus NaN, with
  `Number(s)`, `String(n)`, truthiness and comparisons.
- `Seqs`: `Array.prototype.filter` and the subsequence relation.
- `Types`: the records of `src/data/types.ts`.
- `Methods`: the three operations.
- `MethodsProperties`: lemmas that relate several calls.

Behaviour the model takes from the code of `src/data/methods.ts`:

- A number-typed value that is not numeric becomes NaN (`Number("abc")`),
  not 0. Both are falsy, so the field is left out either way.
- The `in` operator removes the first space of each token wherever it
  is. `String.replace` with a string pattern does that; it is more than a
  leading-space strip (`Methods.InTokens`,
  `MethodsProperties.InteriorSpaceNeverMatches`).
- Normalization never throws for a catalog name missing from the table.
  It indexes the table directly, and the write goes to a junk key outside
  the five fields.
- `Operator.id` is declared `number` in `types.ts`, but the filter
  compares it with string tags. It is a string here, and
  `Methods.KindOf` turns it into an `OperatorKind` that has an
  `Unrecognised` case.

## Model

| member | source | states |
|---|---|---|
| `Methods.LookupMapping` | src/data/methods.ts:3-9 | indexing the table object gives an own entry exactly for the five display names, and an inherited member exactly for the `Object.prototype` member names |
| `Methods.GetPropertyKey` | src/data/methods.ts:46-53 | succeeds exactly for "Product Name", "color", "weight (oz)", "category" and "wireless"; every other name gives `InvalidPropertyKey` with the source's message |
| `Methods.GetPropertyKeyAsWritten` | src/data/methods.ts:46-53 | the lookup as the object literal behaves: fails only for names that are neither display names nor `Object.prototype` member names |
| `MethodsProperties.GetPropertyKeyInverse` | src/data/methods.ts:3-9 | the table is a bijection: each field has exactly one display name, and looking that name up gives the field back |
| `MethodsProperties.AsWrittenAcceptsPrototypeNames` | src/data/methods.ts:46-50 | for every `Object.prototype` member name, the lookup as written succeeds while the corrected lookup fails |
| `Types.Product.With` | src/data/methods.ts:36-37 | writing a field sets that field and leaves the id and the other four fields unchanged |
| `Methods.Coerce` | src/data/methods.ts:21-34 | the `switch` on the declared type: a string type stores `String(value)`, a number type `Number(value)`, an enumerated type the raw value, and any other type nothing |
| `Methods.EntryWrite` | src/data/methods.ts:18-38 | an entry writes only when its id finds a catalog entry, the coerced value is truthy and the catalog name is one of the table's own entries; and whenever all three hold, it writes that coerced value to that entry's field |
| `Methods.ApplyEntry` | src/data/methods.ts:17-40 | one entry keeps the row's id and changes no field other than the one it writes |
| `Methods.FindProperty` | src/data/methods.ts:18 | `find` returns nothing exactly when no catalog entry has the id; otherwise it returns the entry at the first index carrying the id |
| `Methods.ApplyEntries` | src/data/methods.ts:16-17 | folding the entries over a row never changes the row's id |
| `Methods.NormalizeRow` | src/data/methods.ts:16 | each normalized row carries the id of its raw product |
| `Methods.Normalize` | src/data/methods.ts:15-43 | one row per raw product, same length, row i carries the id of raw product i |
| `Methods.NormalizeProduct` | src/data/methods.ts:16-42 | the loop over the entries, with the type switch and the truthiness test, builds exactly the fold `NormalizeRow` |
| `Methods.NormalizeProducts` | src/data/methods.ts:11-44 | the loop over the raw products returns exactly `Normalize` of them |
| `MethodsProperties.NormalizedFieldsTruthy` | src/data/methods.ts:35-38 | a normalized row never holds a falsy value: an empty string, a zero or NaN is never written, so that field stays absent |
| `MethodsProperties.UnmatchedEntryIgnored` | src/data/methods.ts:18-19 | an entry whose property id matches no catalog entry can be removed from any position without changing the row |
| `MethodsProperties.FirstMatchDecides` | src/data/methods.ts:18 | when several catalog entries share an id, the first one alone decides the type and the target field |
| `MethodsProperties.NumberFalsyOmitted` | src/data/methods.ts:25-27 | a number-typed entry whose text is blank (converts to 0) or contains a non-numeric character (converts to NaN) leaves the row unchanged |
| `MethodsProperties.NumberTypedStored` | src/data/methods.ts:25-38 | a number-typed entry whose catalog name is in the table stores `Number(value)` in that field unless it is 0 or NaN; the id and the other fields stay as they were |
| `MethodsProperties.EnumeratedStored` | src/data/methods.ts:28-38 | an enumerated entry whose catalog name is in the table stores its raw value in that field unless it is falsy; the id and the other fields stay as they were |
| `MethodsProperties.WeightFromText` | src/data/methods.test.ts:20-47 | a number-typed "weight (oz)" entry with the text "5.2" sets the weight to the number 5.2 |
| `MethodsProperties.FivePointTwo` | src/data/methods.ts:26 | `Number("5.2")` is 52 tenths |
| `MethodsProperties.StringTypedStored` | src/data/methods.ts:22-24 | a string-typed entry whose catalog name is in the table stores the string form of its value in that field unless it is empty; the id and the other fields stay as they were |
| `MethodsProperties.UnwrittenFieldKept` | src/data/methods.ts:17-40 | a field that no entry writes keeps its starting value |
| `MethodsProperties.LastWriteWins` | src/data/methods.ts:17-40 | entries apply in order, so a field ends up with the value of the last entry that writes it |
| `Methods.IsInactive` | src/data/methods.ts:61-63 | no clause, or a clause whose value is the empty string, means no filtering |
| `Methods.KindOf` | src/data/methods.ts:81-112 | the seven operator tags the filter tests for are recognised, and any other tag is kept as `Unrecognised` |
| `Methods.Keeps` | src/data/methods.ts:81-112 | the `filter` callback on one field value: `any`/`none` test presence, `equals` compares numbers strictly and strings lower-cased, `greater_than`/`less_than` need a number field, `in` looks the lower-cased `String(field)` up among the tokens, `contains` needs two strings, and any other tag keeps the product |
| `Methods.Matches` | src/data/methods.ts:78-113 | a product passes when `Keeps` holds of its field under the clause's property, with the `in` tokens computed once |
| `Methods.InTokens` | src/data/methods.ts:69-76 | a falsy value gives no tokens; a truthy one gives one token more than its string form has commas |
| `Methods.FieldString` | src/data/methods.ts:101 | `String(productValue)`: an absent field reads as "undefined" |
| `Methods.FilterProducts` | src/data/methods.ts:55-114 | with no clause, or a clause whose value is "", the products come back unchanged; otherwise, with the corrected lookup, the result is an error exactly when the property name is not one of the five display names (even with no products), and a success never has more products, or more copies of one, than the input |
| `MethodsProperties.FilterSelects` | src/data/methods.ts:78-113 | an active clause on a known property returns an order-preserving subsequence of the products in which a matching product occurs as often as in the input and a non-matching one not at all |
| `Methods.ReadKey` | src/data/methods.ts:79 | `product[propertyKey]` with the key as written: an inherited member is none of the five fields and reads as absent |
| `Methods.MatchesAsWritten` | src/data/methods.ts:78-113 | the `filter` callback with the key as written |
| `Methods.FilterProductsAsWritten` | src/data/methods.ts:55-114 | with the lookup as written, an active clause fails only for names that are neither display names nor inherited member names; otherwise as `FilterProducts` |
| `MethodsProperties.AsWrittenAgreesOnTableNames` | src/data/methods.ts:67 | on the five display names (and with no active clause) the filter as written and the corrected filter return the same result |
| `MethodsProperties.PrototypeNameReadsAbsent` | src/data/methods.ts:67-87 | on an inherited member name such as "constructor", the filter as written raises no error, `none` keeps every product and `any` keeps none, while the corrected filter reports the key error |
| `MethodsProperties.FilterProductsIdempotent` | src/data/methods.ts:78-113 | filtering the result again with the same clause changes nothing |
| `MethodsProperties.UnrecognisedKeepsAll` | src/data/methods.ts:110-111 | an unrecognised operator tag keeps every product |
| `MethodsProperties.AnyNonePartition` | src/data/methods.ts:81-87 | `any` and `none` on the same property split the products: every occurrence is in exactly one of the two results |
| `MethodsProperties.ComparisonsNeedNumber` | src/data/methods.ts:94-97 | `greater_than` and `less_than` keep only products whose field holds a number other than NaN |
| `MethodsProperties.NumericTrichotomy` | src/data/methods.ts:90-97 | for a numeric field and a numeric value (neither NaN), exactly one of `equals`, `greater_than` and `less_than` keeps the product |
| `MethodsProperties.EqualsNumberNeverString` | src/data/methods.ts:91-92 | `equals` compares a numeric field strictly, so a string value such as "6" never equals it |
| `MethodsProperties.EqualsIgnoresCase` | src/data/methods.ts:93 | string fields that differ only in the case of ASCII letters get the same `equals` verdict, and a field equals any value that differs from it only in case |
| `MethodsProperties.ContainsIgnoresCase` | src/data/methods.ts:104-109 | changing the case of ASCII letters in the field or in the value does not change the `contains` verdict |
| `MethodsProperties.InIgnoresCase` | src/data/methods.ts:101 | string fields that differ only in the case of ASCII letters get the same `in` verdict |
| `MethodsProperties.InSingleWord` | src/data/methods.ts:69-102 | `in` with a one-word value (no comma, no space) keeps a string or absent field exactly when its text is that word up to ASCII case |
| `MethodsProperties.InUndefinedKeepsAbsent` | src/data/methods.ts:101 | since an absent field reads as "undefined", `in "undefined"` keeps every product lacking the field, and a string field only when it spells "undefined" in some case |
| `MethodsProperties.InKeepsExactly` | src/data/methods.ts:98-102 | `in` keeps a product exactly when its lower-cased stringified field (absent reads "undefined") is one of the tokens |
| `MethodsProperties.InFalsyKeepsNothing` | src/data/methods.ts:70-75 | a falsy `in` value (null, 0, NaN) gives no tokens, so nothing is kept |
| `MethodsProperties.InTokensSingle` | src/data/methods.ts:69-76 | a value without commas gives one token: the value lower-cased with its first space removed |
| `MethodsProperties.InTokensCommaSpace` | src/data/methods.ts:69-76 | a value "a, b" of two space-free items gives the tokens a and b lower-cased, since the space after the comma is the one removed |
| `MethodsProperties.InteriorSpaceNeverMatches` | src/data/methods.ts:74 | for a value "a b", the token is a and b lower-cased with nothing between them, so `in "a b"` does not keep a product whose field is "a b", while `equals "a b"` does |
| `MethodsProperties.ContainsKeepsExactly` | src/data/methods.ts:104-109 | `contains` keeps a product exactly when its field and the value are both strings and the lower-cased value occurs in the lower-cased field |
| `JsStrings.Lower` | src/data/methods.ts:74 | lower-casing keeps the length, turns each ASCII upper-case letter into its lower-case letter (code point plus 32) and changes no other character |
| `JsStrings.LowerEqualIff` | src/data/methods.ts:93 | two strings lower-case to the same string exactly when they differ only in the case of ASCII letters |
| `JsStrings.Includes` | src/data/methods.ts:108 | `hay.includes(needle)`, scanning from the left |
| `JsStrings.Split` | src/data/methods.ts:73 | `split(",")` gives at least one token and no token holds the separator |
| `JsStrings.Join` | src/data/methods.ts:72 | `Array.prototype.toString`: the items joined with commas |
| `JsStrings.RemoveFirstSpace` | src/data/methods.ts:74 | `replace(" ", "")`: removes the first space, wherever it is |
| `JsStrings.IncludesIff` | src/data/methods.ts:108 | `includes` holds exactly when the needle occurs at some position of the string |
| `JsStrings.JoinSplit` | src/data/methods.ts:73 | joining the tokens of a split with the same separator gives back the string |
| `JsStrings.SplitJoin` | src/data/methods.ts:73 | splitting a join of separator-free tokens gives back the tokens |
| `JsStrings.SplitCount` | src/data/methods.ts:73 | a split has one more token than the string has separators |
| `JsStrings.RemoveFirstSpaceCutsFirst` | src/data/methods.ts:74 | `replace(" ", "")` removes exactly the character at the first space, and is the identity on strings without a space |
| `JsStrings.RemoveFirstSpaceNone` | src/data/methods.ts:74 | a string without a space is left as it is |
| `JsStrings.RemoveFirstSpaceAt` | src/data/methods.ts:74 | with no space before it, the first space is the one removed, whatever follows it |
| `JsNumbers.ParseNumber` | src/data/methods.ts:26 | `Number(s)`: white space trimmed, blank text is 0, an optional sign, digits with at most one point, anything else NaN |
| `JsNumbers.NumberToString` | src/data/methods.ts:23 | `String(n)`: NaN as "NaN", a finite number in its shortest plain decimal form |
| `JsNumbers.IsTruthy` | src/data/methods.ts:35 | a number is truthy unless it is zero or NaN |
| `JsNumbers.StrictEquals` | src/data/methods.ts:92 | `===` on numbers: equal values, and NaN equals nothing |
| `JsNumbers.IsGreater` | src/data/methods.ts:95 | `>` on numbers, false when either side is NaN |
| `JsNumbers.IsLess` | src/data/methods.ts:96 | `<` on numbers, false when either side is NaN |
| `Types.Value.ToString` | src/data/methods.ts:23 | `String(v)` of a raw value: a string as is, a number as `String(n)` |
| `Types.Value.ToNumber` | src/data/methods.ts:26 | `Number(v)` of a raw value |
| `Types.Value.IsTruthy` | src/data/methods.ts:35 | `if (value)`: the empty string, zero and NaN are falsy |
| `Types.FilterValue.ToString` | src/data/methods.ts:93 | `String(value)` of a clause value: an array joined with commas, `null` as "null" |
| `Types.FilterValue.ToNumber` | src/data/methods.ts:95-96 | `Number(value)` of a clause value: an array through its string, `null` as 0 |
| `Types.FilterValue.IsTruthy` | src/data/methods.ts:70-71 | `value ? … : []`: every array is truthy, `null` is not |
| `JsNumbers.BlankIsZero` | src/data/methods.ts:26 | `Number` of an empty or all-white-space string is 0, which is falsy |
| `JsNumbers.ForeignCharIsNaN` | src/data/methods.ts:26 | `Number` of a string holding a character that is not white space, a digit, ".", "+" or "-" is NaN |
| `JsNumbers.ParseNumberToString` | src/data/methods.ts:23-26 | `Number(String(n))` gives back `n` with trailing fraction zeros dropped: NaN stays NaN, and a finite number comes back strictly equal to itself |
| `JsNumbers.DecRoundTrip` | src/data/methods.ts:23-26 | a finite number's string parses to its shortest decimal form, whose value is the number's value |
| `JsNumbers.NaNStringIsNaN` | src/data/methods.ts:26 | `Number("NaN")` is NaN |
| `JsNumbers.DropTrailingZerosValue` | src/data/methods.ts:23 | dropping trailing fraction zeros never lengthens the fraction and keeps the value, stated by cross-multiplication |
| `JsNumbers.UnsignedToStringParses` | src/data/methods.ts:23-26 | the unsigned digits `String` prints for a decimal begin and end with a digit and parse back to that decimal |
| `JsNumbers.NatToStringParses` | src/data/methods.ts:23-26 | the digits of a natural number parse back to it |
| `JsNumbers.PaddedParses` | src/data/methods.ts:23-26 | a zero-padded natural with a point before its last `e` digits parses to the natural over `10^e` |
| `JsNumbers.PointBeforeParses` | src/data/methods.ts:23-26 | digits with a point before the last `e` of them begin and end with a digit and parse to their value over `10^e` |
| `JsNumbers.SignedParse` | src/data/methods.ts:26 | text that begins and ends with a digit is not trimmed, and a leading "-" negates what the rest parses to |
| `JsNumbers.ParseUnsignedDecimal` | src/data/methods.ts:26 | "w.f" for digit strings w (non-empty) and f parses to the digits of w and f read together over `10^|f|` |
| `JsNumbers.ParseUnsignedInteger` | src/data/methods.ts:26 | a non-empty digit string parses to its value with no fraction |
| `JsNumbers.NatToStringValue` | src/data/methods.ts:23 | the decimal digits printed for a natural number read back as that number |
| `JsNumbers.DigitsAppend` | src/data/methods.ts:26 | the value of digits w followed by digits f is w's value times `10^|f|` plus f's value |
| `JsNumbers.ZeroPadValue` | src/data/methods.ts:23 | left-padding digits with zeros keeps them digits and keeps their value |
| `Seqs.Filter` | src/data/methods.ts:78 | `filter` returns no more elements than it is given, only elements the predicate accepts, and a sub-multiset of the input |
| `Seqs.FilterMembers` | src/data/methods.ts:78 | an element is in the result exactly when it is in the input and the predicate accepts it |
| `Seqs.FilterCounts` | src/data/methods.ts:78 | each element occurs in the result as often as in the input when the predicate accepts it, and not at all otherwise |
| `Seqs.FilterIsSubsequence` | src/data/methods.ts:78 | the result keeps the input's order |
| `Seqs.FilterPartition` | src/data/methods.ts:78 | complementary predicates split the input's multiset between the two results |

## Findings

| source | as written | input that shows it | evidently intended | confidence | as-written member | corrected member |
|---|---|---|---|---|---|---|
| src/data/methods.ts:46-53 | `PropertyNameMapping` is a plain object literal, so `PropertyNameMapping[name]` also finds the members inherited from `Object.prototype`. These are truthy functions or objects, and `getPropertyKey` returns them instead of throwing | `getPropertyKey("constructor")` returns the `Object` constructor; a filter on a property named "constructor" then reads every field as absent, with no error | only the five display names resolve and every other name throws `InvalidPropertyKey` | high; not executed | `Methods.GetPropertyKeyAsWritten` and `Methods.FilterProductsAsWritten`, shown by `MethodsProperties.AsWrittenAcceptsPrototypeNames` and `MethodsProperties.PrototypeNameReadsAbsent` | `Methods.GetPropertyKey`, used by `Methods.FilterProducts` |

## Left out

- React components, page composition and the data source are not part of
  this model. These are the dropdowns, table, header, filter group and
  product finder page, and the `datastore` the page calls.
- Numbers are exact decimals (`JsNumbers.Number`), not IEEE-754 doubles.
  Rounding, infinities and `-0` as a separate value are not represented.
- `JsNumbers.ParseNumber`: exponent literals ("1e3"), radix prefixes
  ("0x1F", "0b1", "0o7") and "Infinity" parse to NaN in the model, while
  JavaScript gives numbers.
- `JsNumbers.NumberToString` prints every number in plain decimal form.
  JavaScript uses exponent notation at and above 1e21 and below 1e-6.
- `JsStrings.Lower` folds ASCII letters only. Full Unicode `toLowerCase`
  and `toLocaleLowerCase` are not modelled.
- The junk key is not represented. When a catalog name is not in the
  table, normalization writes under the string form of what the table
  lookup gives: `"undefined"` for an unknown name, and for the name of an
  inherited member the string form of that member, such as
  "function Object() { [native code] }" for "constructor" or
  "[object Object]" for "__proto__". The five fields are unaffected, and
  that is what the model keeps. The table view reads only the five fields.
- `Methods.FilterProducts` uses the corrected lookup `Methods.GetPropertyKey`,
  so it reports the key error for the names of inherited members, where
  the code goes on and filters. The code's behaviour is
  `Methods.FilterProductsAsWritten`. That one reads the property as absent
  on every product, while the code would read a junk-key value that
  normalization wrote for a catalog property of the same name; junk keys
  are not represented (previous line).
- Ids are unbounded integers. JavaScript numbers that are not integers
  are not used as ids.
- `Property.values` (the allowed values of an enumerated property) is
  carried in `Types.Property` but not used by the pipeline.
