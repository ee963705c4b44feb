# JSONJoy decoder node, modelled in Dafny

This project models `JSONDecoder`, the decoder node of JSONJoy (Source/JSONJoy.swift). The node wraps one
value of a decoded JSON document. It covers:

- the initialiser, which normalises raw input (JSON text, `NSData`, or a native tree of `NSArray`,
  `NSDictionary`, `NSNumber`, `NSNull` and `NSError`) into a tree of nodes;
- the typed accessors (`string`, `integer`, `unsigned`, `number`, `bool`, `error`, `dictionary`,
  `array`, `rawValue`) and their throwing `get*` twins;
- the bulk extractors `getArray` and `getDictionary`;
- the index and key subscripts, and `createError`, which builds the error node a subscript returns on a miss;
- the debugging printer `print()`.

Modules:

- `Wrappers` holds `Option` and `Result`.
- `Strings` covers the integers and strings the source relies on:
  - 64-bit `Int` and `UInt`;
  - ASCII lower-casing for `lowercaseString`;
  - `Int(String)`;
  - decimal numerals for `"\(index)"`;
  - UTF-8 for `dataUsingEncoding`.
- `JSONJoy` holds the node and the values it holds, the accessors, the throwing accessors and navigation.
- `Decoding` holds the initialiser.
  - The function `Normalized` specifies it.
  - The imperative `Init` (with its loops `InitElements` and `InitPairs`) follows the source step by step and
    is proved equal to `Normalized`.
- `Extraction` holds `getArray` and `getDictionary`.
  - They are methods with loops.
  - They are proved against the functions `Filtered` and `Inserted`.
- `Printing` holds `print()`.
  - The method `Print` (with its loops `PrintItems` and `PrintEntries`) is proved equal to the function `Printed`.
  - It also holds the corrected printer from the finding below.
- `Scenarios` gives concrete uses: the bool table, a nested document, type filtering and printing.

A node never changes after its initialiser has run, and its children form a strict tree. So a node is a value:
`JSONDecoder(value: Option<Value>)`. A dictionary node keeps its pairs in iteration order as a list of
key/value pairs with distinct keys. `ToMap` turns that list into the Swift dictionary, where a later pair with
the same key wins. `Put` is `dict[key] = v`.

Two collaborators are passed in as function parameters:

- the JSON parser `NSJSONSerialization.JSONObjectWithData`. It takes bytes and returns either a native tree
  without `NSData` or the `NSError` it throws.
- the default description `"\(v)"` of a number or an error, used by `print()`.

The cast `decoder.value as? T` of the bulk extractors is also a parameter. Each `inout` parameter
`collect` becomes an in-parameter `collect` and an out-parameter `collect'`.

`print()` is documented to print the decoder in JSON format (Source/JSONJoy.swift:211). With no members,
though, the removal of the trailing comma (lines 218 and 225) deletes the opening bracket, so an empty array
prints `]` and an empty dictionary `}`. The model follows the code, and the section "Findings" below records
the difference.

## Model

| member | source | states |
|---|---|---|
| Strings.Lower | Source/JSONJoy.swift:55 | `lowercaseString` keeps the length, turns each upper-case letter into its lower-case letter, and keeps every other character |
| Strings.LowerIdempotent | Source/JSONJoy.swift:55 | lower-casing twice is lower-casing once |
| Strings.LowerUnchanged | Source/JSONJoy.swift:55 | a string without upper-case letters is its own lower-case form |
| Strings.NatToDecimal | Source/JSONJoy.swift:192 | the numeral of a natural number is a non-empty run of digits, starting with `0` exactly for zero |
| Strings.IntToDecimal | Source/JSONJoy.swift:192 | the numeral `"\(index)"` is non-empty, starts with `-` exactly for a negative number, and is the digit run for other numbers |
| Strings.DigitsValue | Source/JSONJoy.swift:56 | a string has a decimal value exactly when it is a non-empty run of digits |
| Strings.DigitsOfDecimal | Source/JSONJoy.swift:56 | reading back the numeral of `n` gives `n` |
| Strings.ParseInt | Source/JSONJoy.swift:56 | `Int(s)` succeeds only on an optional sign followed by digits, and a negative result comes from a leading `-` |
| Strings.ParseIntOfDecimal | Source/JSONJoy.swift:56 | `Int` parses the numeral of every 64-bit integer back to that integer |
| Strings.Utf8Char | Source/JSONJoy.swift:155 | one character encodes to 1 to 4 bytes, to a single byte equal to it exactly when it is below 0x80 |
| Strings.Utf8 | Source/JSONJoy.swift:155 | `dataUsingEncoding(NSUTF8StringEncoding)` never fails, and gives between one and four bytes per character |
| JSONJoy.ToMap | Source/JSONJoy.swift:175-179 | the Swift dictionary that inserting the pairs in order builds; its keys and values are stated by `JSONJoy.ToMapSpec` |
| JSONJoy.ToMapSpec | Source/JSONJoy.swift:175-179 | the dictionary built by inserting the pairs in order has exactly the pairs' keys, and the last pair with a key gives its value |
| JSONJoy.ToMapDistinct | Source/JSONJoy.swift:175-179 | with distinct keys, every pair is found under its key |
| JSONJoy.Remove | Source/JSONJoy.swift:177 | removing a key keeps only pairs of the list, none with that key, and keeps the keys distinct |
| JSONJoy.RemoveToMap | Source/JSONJoy.swift:177 | removing a key from the pairs removes it from the dictionary they build |
| JSONJoy.Put | Source/JSONJoy.swift:177 | `collect[key] = v` maps `key` to `v`, changes no other key, adds only that pair, and keeps the keys distinct |
| JSONJoy.PutAll | Source/JSONJoy.swift:175-179 | inserting pairs one by one into an empty dictionary gives distinct keys and the dictionary the pairs build |
| JSONJoy.RawValue | Source/JSONJoy.swift:20-22 | `rawValue` is the stored value as it is; the typed views are each stated against it |
| JSONJoy.AsString | Source/JSONJoy.swift:28-30 | `string` is present exactly when the node holds a string, and then it is that string |
| JSONJoy.AsInteger | Source/JSONJoy.swift:33-35 | `integer` is present exactly when the node holds a signed integer, and then it is that integer |
| JSONJoy.AsUnsigned | Source/JSONJoy.swift:37-39 | `unsigned` is present exactly when the node holds an unsigned integer, and then it is that integer |
| JSONJoy.AsNumber | Source/JSONJoy.swift:49-51 | `number` is present exactly when the node holds an `NSNumber` of any kind, and then it is that number |
| JSONJoy.AsError | Source/JSONJoy.swift:69-71 | `error` is present exactly when the node holds an error, and then it is that error |
| JSONJoy.AsDictionary | Source/JSONJoy.swift:73-75 | `dictionary` is present exactly when the node holds a dictionary, and its keys are the keys of the stored pairs |
| JSONJoy.AsArray | Source/JSONJoy.swift:77-79 | `array` is present exactly when the node holds an array, and then it is that array of children |
| JSONJoy.AccessorsExclusive | Source/JSONJoy.swift:28-79 | at most one typed view is present, except that `number` is present beside `integer` or `unsigned` |
| JSONJoy.AsBool | Source/JSONJoy.swift:53-67 | for a string, `bool` is true exactly when the lower-cased string is "true" or an `Int` above zero; for an integer, exactly when it is above zero; for any other number except a true boolean, and for a node with neither a number nor a string, false |
| JSONJoy.AsBoolOfBoolean | Source/JSONJoy.swift:59-60 | a JSON boolean reads as itself |
| JSONJoy.AsBoolOfNumeral | Source/JSONJoy.swift:54-58 | the numeral of any `Int`, as a string, is true exactly when the number is above zero |
| JSONJoy.AsBoolIgnoresCase | Source/JSONJoy.swift:55-56 | `bool` on a string ignores the case of its letters |
| JSONJoy.AsBoolOfNonNumeral | Source/JSONJoy.swift:54-66 | a string that is not "true" in any case and not an `Int` numeral is false |
| JSONJoy.GetString | Source/JSONJoy.swift:82-85 | `getString` throws `WrongType` exactly when `string` is absent, and otherwise returns it |
| JSONJoy.GetInt | Source/JSONJoy.swift:88-91 | `getInt` throws exactly when `integer` is absent, and otherwise returns it |
| JSONJoy.GetUnsigned | Source/JSONJoy.swift:94-97 | `getUnsigned` throws exactly when `unsigned` is absent, and otherwise returns it |
| JSONJoy.GetNumber | Source/JSONJoy.swift:112-115 | the `getFloat` that returns an `NSNumber` throws exactly when `number` is absent, and otherwise returns it |
| JSONJoy.GetBool | Source/JSONJoy.swift:118-123 | `getBool` throws exactly on a null node, and otherwise returns `bool` |
| JSONJoy.CreateError | Source/JSONJoy.swift:207-209 | the error has domain "JSONJoy", code 1002 and the given text as its description |
| JSONJoy.MissNode | Source/JSONJoy.swift:192-203 | the node `JSONDecoder(createError(text))` holds the error with domain "JSONJoy", code 1002 and that text |
| JSONJoy.IndexMissText | Source/JSONJoy.swift:192 | the index message is "index: ", the index in decimal, and the fixed suffix |
| JSONJoy.IndexMissTextInjective | Source/JSONJoy.swift:192 | different 64-bit indices give different index messages |
| JSONJoy.KeyMissText | Source/JSONJoy.swift:203 | the key message is "key: ", the key itself, and the fixed suffix |
| JSONJoy.At | Source/JSONJoy.swift:185-194 | `self[index]` is child `index` of an array longer than `index`, and otherwise (any index on a non-array node) the error node with the index message |
| JSONJoy.Member | Source/JSONJoy.swift:196-205 | `self[key]` is the child stored under `key` of a dictionary holding it, and otherwise the error node with the key message |
| JSONJoy.MemberOfEntry | Source/JSONJoy.swift:196-205 | in a normalised dictionary node, each stored pair's child is what its key subscripts to |
| JSONJoy.MemberOfMissingKey | Source/JSONJoy.swift:196-205 | a key that no pair carries subscripts to an error in the JSONJoy domain with the key message |
| JSONJoy.MissNodeIsInert | Source/JSONJoy.swift:185-209 | a miss node holds the error ("JSONJoy", 1002, text); every other typed view is absent, `bool` is false, `getString` and `getInt` throw, and `getBool` returns false |
| JSONJoy.MissesPropagate | Source/JSONJoy.swift:185-205 | subscripting a miss node, by index or by key, gives a miss again |
| Decoding.Normalized | Source/JSONJoy.swift:152-183 | every node the initialiser builds is normal: no node is absent, and every dictionary has distinct keys, at every depth |
| Decoding.FromParser | Source/JSONJoy.swift:157-167 | the node stored after calling the parser is normal |
| Decoding.NormalizedArray | Source/JSONJoy.swift:168-173 | a native array becomes an array node of the same length, whose child `i` is element `i` initialised as a sub-node |
| Decoding.NormalizedDictionary | Source/JSONJoy.swift:174-179 | a native dictionary becomes a dictionary node with the same keys; each key subscripts to its last value initialised as a sub-node, and any other key misses |
| Decoding.NormalizedDistinctDictionary | Source/JSONJoy.swift:174-179 | with distinct keys, every key subscripts to its own value initialised as a sub-node |
| Decoding.SubTextIsLiteral | Source/JSONJoy.swift:154 | a string met as a sub-node is kept as that string, not parsed |
| Decoding.TopLevelTextIsParsed | Source/JSONJoy.swift:154-167 | top-level text is encoded and parsed; a parse failure is stored as the error, and a parsed tree is initialised as a sub-node |
| Decoding.ScalarsKept | Source/JSONJoy.swift:180-182 | numbers, null and errors are stored as they are |
| Decoding.MissNodeIsInitOfError | Source/JSONJoy.swift:192-203 | a subscript's miss node is the initialiser applied to `createError(text)` |
| Decoding.NeverAbsent | Source/JSONJoy.swift:152-183 | the initialiser never leaves a node absent |
| Decoding.Init | Source/JSONJoy.swift:152-183 | the initialiser as written builds exactly the normalised node |
| Decoding.InitElements | Source/JSONJoy.swift:168-173 | the array loop appends one sub-node per element, in order |
| Decoding.InitPairs | Source/JSONJoy.swift:174-179 | the dictionary loop stores each value, as a sub-node, under its key, in iteration order |
| Extraction.Matched | Source/JSONJoy.swift:132 | `decoder.value as? T` is absent for an absent value, and otherwise the cast of the value |
| Extraction.Filtered | Source/JSONJoy.swift:131-135 | the values kept are never more than the children |
| Extraction.FilteredAppend | Source/JSONJoy.swift:131-135 | filtering distributes over concatenation, so the kept values stay in the children's order |
| Extraction.FilteredSingle | Source/JSONJoy.swift:132-134 | a child of type `T` is kept as its cast value, and any other child is dropped |
| Extraction.FilteredFrom | Source/JSONJoy.swift:131-135 | every kept value is the cast of some child |
| Extraction.FilteredAll | Source/JSONJoy.swift:131-135 | when every child has type `T`, all of them are kept, in order |
| Extraction.FilteredNone | Source/JSONJoy.swift:131-135 | when no child has type `T`, nothing is kept |
| Extraction.GetArray | Source/JSONJoy.swift:126-137 | on an array node `collect` becomes non-nil, keeps what it held and has the children of type `T` appended in order; on any other node it is unchanged |
| Extraction.Inserted | Source/JSONJoy.swift:144-148 | `collect` after storing, pair by pair, the cast of every child of type `T` under its key; stated by the three lemmas below |
| Extraction.InsertedKeys | Source/JSONJoy.swift:144-148 | after the dictionary loop, the keys are the old keys plus the keys whose child has type `T` |
| Extraction.InsertedMatching | Source/JSONJoy.swift:144-148 | each key whose child has type `T` holds that child's cast value, inserted or overwritten |
| Extraction.InsertedOthers | Source/JSONJoy.swift:144-148 | every old entry under a key no child of type `T` has is left as it was |
| Extraction.InsertedFromDictionary | Source/JSONJoy.swift:139-150 | on a normal dictionary node, each entry of the `dictionary` view whose child has type `T` is stored under its key |
| Extraction.GetDictionary | Source/JSONJoy.swift:139-150 | on a dictionary node `collect` becomes non-nil and gets each child of type `T` stored under its key; on any other node it is unchanged |
| Printing.Printed | Source/JSONJoy.swift:212-237 | what `print()` returns; its bracket structure is stated by `Printing.PrintedBrackets` |
| Printing.TerminatedIsJoined | Source/JSONJoy.swift:214-218 | the loop's text, each part followed by a comma, is the parts joined by commas plus one trailing comma |
| Printing.Print | Source/JSONJoy.swift:212-237 | `print()` as written returns the printed form of the node |
| Printing.PrintItems | Source/JSONJoy.swift:213-219 | the array branch gives `[`, the members joined by commas, and `]`, and `]` alone for no members |
| Printing.PrintEntries | Source/JSONJoy.swift:220-226 | the dictionary branch gives `{`, the `"key": value` entries joined by commas, and `}`, and `}` alone for no entries |
| Printing.PrintedBrackets | Source/JSONJoy.swift:213-226 | an array or a dictionary always prints ending in its closing bracket, and starting with its opening bracket exactly when it has members |
| Printing.EmptyContainersLoseOpeningBracket | Source/JSONJoy.swift:213-226 | as written, an empty array prints `]` and an empty dictionary prints `}` |
| Printing.IntendedPrinted | Source/JSONJoy.swift:212-237 | the corrected printer always encloses an array in `[` `]` and a dictionary in `{` `}` |
| Printing.IntendedEmptyContainers | Source/JSONJoy.swift:213-226 | the corrected printer prints `[]` and `{}` for empty containers |
| Printing.PrintedAsIntended | Source/JSONJoy.swift:212-237 | on a tree without empty containers, the printer as written and the corrected one agree |
| Scenarios.BoolOfWords | Source/JSONJoy.swift:54-58 | "true", "TRUE" and "True" read as true; "false" and "FALSE" as false |
| Scenarios.BoolOfNumerals | Source/JSONJoy.swift:54-58 | "5" reads as true; "0", "-3" and "abc" as false |
| Scenarios.BoolOfOthers | Source/JSONJoy.swift:53-123 | integers read as true only above zero; null, absent, array and dictionary nodes as false; `getBool` on null throws |
| Scenarios.DocumentMembers | Source/JSONJoy.swift:196-205 | in `{"a": [1, {"b": "x"}], "c": null}`, `node["a"]` is the normalised list and `node["c"]` is null |
| Scenarios.DocumentMissingKey | Source/JSONJoy.swift:196-205 | `node["z"]` of that document is an error node |
| Scenarios.ListMembers | Source/JSONJoy.swift:185-205 | in the list, `[0]` is the integer 1, `[1]["b"]` the string "x", and `[2]` an error node |
| Scenarios.ListQueries | Source/JSONJoy.swift:185-205 | the list's `integer`, `string` and `error` answers follow |
| Scenarios.DocumentQueries | Source/JSONJoy.swift:185-205 | the normalised document answers every query over `a`, `c` and `z` |
| Scenarios.NestedDocument | Source/JSONJoy.swift:152-205 | the node initialised from any text that the parser reads as that document answers the same queries |
| Scenarios.FilteredMixed | Source/JSONJoy.swift:131-135 | filtering `["a", 1, "b", 2]` is its four children filtered one by one |
| Scenarios.FilterStrings | Source/JSONJoy.swift:126-137 | `getArray` as `[String]` on `["a", 1, "b", 2]` keeps `["a", "b"]` |
| Scenarios.FilterIntegers | Source/JSONJoy.swift:126-137 | `getArray` as `[Int]` on `["a", 1, "b", 2]` keeps `[1, 2]` |
| Scenarios.ScalarPrints | Source/JSONJoy.swift:228-236 | a string prints as itself in one pair of quotes, null as `null`, and an absent node as the empty text |
| Scenarios.ArrayPrint | Source/JSONJoy.swift:213-219 | `[1, "x"]` prints as `[1,"x"]` when the description of 1 is "1" |

## Left out

- The JSON parser (`NSJSONSerialization`) is foreign code. It is a function parameter, and its success result
  is any native tree without `NSData`.
- The default description `"\(v)"` of numbers and errors (number formatting, the `NSError` layout) is a
  function parameter of the printer.
- `double`, `float`, `getDouble` and the `getFloat` that returns `Float` are not modelled, because floating
  point is out of scope. A floating number is kept as an opaque literal.
- JSONJoy.AsBool: the `double` and `float` branches (`num > 0.99`) are not modelled. `bool` on a floating
  number is false here. A JSON boolean, which the source reads through the bridged `as? Int`, reads as itself.
- NSNumber bridging is not modelled, because it is Foundation behaviour. `as? Int` and `as? UInt` succeed
  only on a number of that kind, and `as? String` only on a string.
- Strings.Lower: lower-cases ASCII letters only; Unicode case mapping is not modelled.
- JSONJoy.At: does not accept a negative index on an array node, because the source traps there
  (`array[index]` when `count > index`, lines 188-189). A negative index on any other node is accepted and gives
  the miss node, as in the source.
- JSONJoy.Put: keys are compared as sequences of code points. Swift `String` equality is Unicode canonical
  equivalence, so keys such as `"\u00E9"` and `"e\u0301"` are one Swift key but two keys here. Unicode
  normalisation is not modelled.
- Iteration order of a Swift dictionary: the model uses the iteration order of the pair list. For
  `NSDictionary` input that is the order its pairs are given in; the dictionary the initialiser stores keeps
  each key at its last insertion. `print()` and `getDictionary` follow that order. The source leaves it
  unspecified.
- Decoding.Normalized: a dictionary key that is not a string (the `as! String` trap) cannot occur, because
  native dictionaries are given with string keys. Raw objects of any other class are not represented.
- Object identity of nodes is not modelled: a subscript returns the child as a value.
- `description`, an alias of `print()`, has no separate member.
- The `JSONJoy` protocol and its implementers are not part of this model.

## Findings

| source | as written | input that shows it | evidently intended | confidence | as-written member | corrected member |
|---|---|---|---|---|---|---|
| Source/JSONJoy.swift:213-226 | the last character is always removed before the closing bracket. With no members that character is the opening bracket | an empty array `[]`, printed as `]`; an empty dictionary `{}`, printed as `}` | JSON output, as the comment at line 211 says: `[]` and `{}`, removing a trailing comma only when there is one | not executed | Printing.EmptyContainersLoseOpeningBracket | Printing.IntendedPrinted |

`Printing.IntendedEmptyContainers` proves the corrected printer gives `[]` and `{}`. `Printing.PrintedAsIntended`
proves that the two printers agree on every tree without an empty container.
