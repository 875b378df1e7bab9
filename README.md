# go-uci configuration tree

A Dafny model of the in-memory UCI configuration tree of go-uci (`types.go`).
UCI is the OpenWrt configuration format. A `Config` is one UCI file: an ordered
list of `Section`s, each with a type, an optional name and an ordered list of
`Option`s. An `Option` is a key with one value (`option`) or several (`list`).

The model has three modules:

- `Wrappers` (`wrappers.dfy`): the `Result` datatype.
- `Selectors` (`selectors.dfy`): the section selector parser `unmangleSectionName`,
  which reads `@type[index]`. Also `strconv.Atoi`/`Itoa` on decimal text, and the
  placeholder-name helpers `Num2PlaceholderSection`, `PlaceholderSection2Num` and
  `IsPlaceholderName`.
- `Tree` (`tree.dfy`): options, sections and configs.
  - `Option` is a value. `Section` and `Config` are classes whose `options` and
    `sections` sequences the methods change in place.
  - The loops of the source are methods proved against specification functions:
    `count`, `index`, `getUnnamed`, the key scan of `Merge`, the per-type counter
    map of `Del`, `Section.Del`, `Section.Merge` and `MergeValues`.
  - Lookups and the serializer `WriteTo` are functions. Lemmas relate them
    (selector resolution, what `Del` removes, how the output text composes).

Sections are identified as the source identifies them:

- by their literal name;
- or by a selector `@T[n]`, meaning the section of type `T` preceded by exactly
  `n` sections of type `T`;
- or by `@T[-k]`, meaning the k-th section of type `T` counted from the end.

`Position`, `CountType` and `NthOfType` define this counting once, and every
operation is proved against them.

## Model

| member | source | states |
|---|---|---|
| Selectors.AtoiItoa | types.go:124 | Parsing the decimal spelling of any integer gives that integer back. |
| Selectors.ItoaChars | types.go:360 | The decimal spelling of an integer holds only digits and a minus sign. |
| Selectors.NatToDigits | types.go:360 | The spelling of a natural number is a non-empty digit string whose value is that number. |
| Selectors.Atoi | types.go:124 | `strconv.Atoi` on decimal text: an optional sign and one or more ASCII digits give their value, anything else an error carrying the text. Its inverse property is `AtoiItoa`. |
| Selectors.Itoa | types.go:360 | `strconv.Itoa`: a minus sign for negative numbers, then the shortest digit spelling (`NatToDigits`). `AtoiItoa` and `ItoaChars` state its properties. |
| Selectors.SelectorErrorOrder | types.go:90-129 | The parser's error order, for any name. Shorter than 5 gives the implausible-selector error. Otherwise a first character other than `@` gives must-start-with-@. Otherwise the first offending character of the left-to-right scan decides between multiple @, multiple open brackets and multiple close brackets. Otherwise no `[`, or `[` last, gives invalid format. Otherwise the text between the brackets decides between the numeric-index error and success. |
| Selectors.ScanFrom | types.go:102-116 | The bracket scan from position i succeeds iff no later character offends. It reports the error of the first offending character. On success it returns the position of the only `[`, or 0 when there is none. |
| Selectors.SecondOpenOffends | types.go:107-109 | A second `[` is always an offending character. |
| Selectors.SplitSelector | types.go:90-129 | The checks of unmangleSectionName in source order: length, leading `@`, the bracket scan, the bracket positions, then Atoi of the bracket text. A flag says whether the last character is checked to be `]`. `SelectorErrorOrder` states the order for every name. |
| Selectors.UnmangleAsWritten | types.go:90-129 | unmangleSectionName as written: the last character is not checked. Get and getUnnamed use it. `TrailingCharIgnored` shows where it departs from the intended format. |
| Selectors.Unmangle | types.go:90-129 | unmangleSectionName with the closing bracket checked, the evidently intended reading. `UnmangleShape` and `UnmangleWellFormed` state its shape and round trip. It agrees with the as-written parser on every name ending in `]` (`UnmangleAgreesWhenClosed`). |
| Selectors.UnmangleOkScan | types.go:118-128 | On success the name starts with `@` and ends with `]`. The type is the text between them, before the only `[`. The index is the number parsed from the text between the brackets. |
| Selectors.UnmangleShape | types.go:101-128 | A parsed selector is exactly `"@" + type + "[" + index text + "]"`. The index text parses to the index, and the type holds no `@`, `[` or `]`. |
| Selectors.UnmangleWellFormed | types.go:90-129 | `"@" + t + "[" + text + "]"`, with t non-empty, t and text both free of `@[]`, and the whole name at least 5 long (`|t| + |text| >= 2`), parses to `(t, Atoi(text))`, or to the numeric-index error when text is not a decimal number. |
| Selectors.UnmangleNum2Placeholder | types.go:359-361 | Parsing `Num2PlaceholderSection(t, n)` with the closing bracket checked gives `(t, n)`, for every non-empty t free of `@[]` and every integer n. |
| Selectors.UnmangleAsWrittenNum2Placeholder | types.go:90-129 | The same round trip through unmangleSectionName as written: `(t, n)` for every non-empty t free of `@[]` and every integer n. |
| Selectors.UnmangleErrorTable | types_test.go:16-32 | unmangleSectionName as written gives each rejected selector of the test table in types_test.go the error listed there. |
| Selectors.RejectsAtAfterAt | types_test.go:18 | `@@[0]` gives multiple @ signs, both as written and with the closing bracket checked. |
| Selectors.RejectsAllAt | types_test.go:19 | `@@@@@@@@@@@` gives multiple @ signs, both as written and with the closing bracket checked. |
| Selectors.RejectsOpenAfterOpen | types_test.go:20 | `@[[0]` gives multiple open brackets, both as written and with the closing bracket checked. |
| Selectors.RejectsEarlyClose | types_test.go:21 | `@][0]` gives multiple close brackets, both as written and with the closing bracket checked. |
| Selectors.RejectsMissingOpen | types_test.go:22 | `@aa0]` gives the invalid-format error, both as written and with the closing bracket checked. |
| Selectors.RejectsLetterIndex | types_test.go:23 | `@a[b]` gives the numeric-index error for `b`, both as written and with the closing bracket checked. |
| Selectors.RejectsHexIndex | types_test.go:32 | `@abcdEFGHijkl[0xff]` gives the numeric-index error for `0xff`, both as written and with the closing bracket checked. |
| Selectors.UnmangleValidTable | types_test.go:26-31 | unmangleSectionName as written parses each accepted selector of the test table in types_test.go to the listed type and index, negative indices included. |
| Selectors.AcceptsZero | types_test.go:26 | `@a[0]` parses to ("a", 0), both as written and with the closing bracket checked. |
| Selectors.AcceptsLargeIndex | types_test.go:27 | `@a[4223]` parses to ("a", 4223), both as written and with the closing bracket checked. |
| Selectors.AcceptsMinusOne | types_test.go:28 | `@a[-1]` parses to ("a", -1), both as written and with the closing bracket checked. |
| Selectors.AcceptsLongType | types_test.go:31 | `@abcdEFGHijkl[-255]` parses to ("abcdEFGHijkl", -255), both as written and with the closing bracket checked. |
| Selectors.UnmangleEmptyType | types.go:118 | `@[10]` is accepted, with an empty type, both as written and with the closing bracket checked. |
| Selectors.TrailingCharIgnored | types.go:101-124 | As written, `@a[12` parses to ("a", 1). With the closing bracket checked it is rejected as invalid format. |
| Selectors.UnmangleAgreesWhenClosed | types.go:90-129 | On every name ending in `]`, the parser as written and the corrected parser agree. |
| Selectors.TrailingDigits | types.go:357 | The count of trailing digits: the last n characters are digits, and the one before them is not. |
| Selectors.Num2PlaceholderSection | types.go:359-361 | `"@" + type + "[" + Itoa(num) + "]"`. Parsing it back gives (type, num) (`UnmangleAsWrittenNum2Placeholder`). |
| Selectors.PlaceholderSection2Num | types.go:363-373 | The regex `^@(.*?)\[(\d+)\]$` as a check: `@`, then text without a line break, `[`, one or more digits, `]`. On a match it gives the digits' value, otherwise the format error. `PlaceholderRoundTrip` relates it to Num2PlaceholderSection. |
| Selectors.IsPlaceholderName | types.go:375-380 | The regex `^@type\[(\d+)\]$` as a predicate: `@`, the type literally, `[`, one or more digits, `]`. `PlaceholderNameOfNum` and `PlaceholderIndex` state its properties. |
| Selectors.PlaceholderNameOfNum | types.go:359-380 | `Num2PlaceholderSection(t, n)` is a placeholder name of type t iff n is not negative. |
| Selectors.PlaceholderRoundTrip | types.go:357-373 | `PlaceholderSection2Num(Num2PlaceholderSection(t, n))` is n for every n >= 0. It is the format error for n < 0. |
| Selectors.PlaceholderIndex | types.go:375-380 | A placeholder name of a type t free of `@[]` parses to t and the value of its digits. |
| Tree.Option.SetValues | types.go:335-337 | The values become exactly the given ones; the name and the type are kept. |
| Tree.Option.AddValue | types.go:339-341 | The value is appended; the name and the type are kept. |
| Tree.Option.MergeValues | types.go:343-355 | The loop that builds `have` and appends every incoming value missing from it gives `values + Unseen(values, vs)`. |
| Tree.Unseen | types.go:349-354 | The appended values are exactly those incoming values absent from the old values, repeats included, and never more than the incoming ones. |
| Tree.UnseenOfPresent | types.go:349-352 | Incoming values that are all present append nothing. |
| Tree.UnseenOfFresh | types.go:349-354 | Incoming values that are all absent are all appended, in order, repeats included. |
| Tree.MergeValuesIdempotent | types.go:343-355 | Merging the same values twice is the same as merging them once. |
| Tree.MergeValuesKeepsAndCovers | types.go:343-355 | The old values stay first and in order. Every incoming value is then present, and no other value is added. |
| Tree.MergeValuesKeepsIncomingRepeats | types.go:344-354 | Repeats inside the incoming list are all appended: merging `b, b` into `a` gives `a, b, b`. |
| Tree.FirstNamed | types.go:262-266 | The index of the first option with the name, or the length when there is none. |
| Tree.MergeOption | types.go:261-269 | Section.Merge on values: the first option of the same name gets `values + Unseen(values, o.values)`, and o is appended when there is none. `MergeOptionProperties` states its properties. |
| Tree.MergeAll | types.go:178-180 | Every option of the incoming section merged with MergeOption, first to last. `MergeAllProperties` states its properties. |
| Tree.MergeOptionProperties | types.go:261-269 | Section.Merge extends the options in place. The list grows by one iff no option had the name, and then the new option is the one given. Every incoming value ends up under its name, and unique option names stay unique. |
| Tree.ExtendsTransitive | types.go:261-269 | Extending options in place is transitive. |
| Tree.HoldsExtended | types.go:261-269 | Once an option holds some values, extending the options keeps them. |
| Tree.MergeAllProperties | types.go:178-180 | Merging a section's options one after another extends the old options. Unique names stay unique, and every incoming option's values end up under its name. |
| Tree.Section.Add | types.go:257-259 | The option is appended. |
| Tree.Section.Merge | types.go:261-269 | The options become `MergeOption(old options, o)`. |
| Tree.Section.Del | types.go:271-288 | Returns true iff an option with the name existed. Exactly the first such option is removed, and the others keep their order. Otherwise the options are unchanged. |
| Tree.Section.Get | types.go:290-298 | Absent iff no option has the name. Otherwise it is the first option with the name. |
| Tree.Section.OptionValue | types.go:300-307 | The values of the first option with the name, or the given defaults when there is none. |
| Tree.Section.OptionLastValue | types.go:309-316 | The last value of the first option with the name, or the given default when there is none. |
| Tree.Section.constructor | types.go:248-255 | A new section with the given type and name and no options. |
| Tree.CountType | types.go:230-237 | The number of sections of a type is at most the number of sections. |
| Tree.CountTypeStep | types.go:231-235 | Counting one more section adds one exactly when it has the type. |
| Tree.CountTypeAppend | types.go:230-237 | The count over two lists is the sum of their counts. |
| Tree.CountTypeGrows | types.go:219-225 | A section of the type strictly raises the count of the sections after it. |
| Tree.NthOfType | types.go:143-154 | For n below the count, a section of the type preceded by exactly n sections of that type. |
| Tree.NthOfTypeUnique | types.go:147-154 | That section is unique: any section of the type with n earlier ones is it. |
| Tree.FirstIndexOf | types.go:219-222 | The first position holding the section. |
| Tree.SectionKey | types.go:211-216 | The name of a named section, or `Num2PlaceholderSection(type, Position)` for an unnamed one. Config.SectionName is proved equal to it. |
| Tree.FirstKeyFrom | types.go:165-173 | The first section from i whose key equals the given key, or the length. |
| Tree.MergeTarget | types.go:163-173 | The first section whose key equals the incoming section's key, or the length when none does. |
| Tree.MergeTargetOfMember | types.go:163-216 | A section already in the config is found at or before its own position. |
| Tree.FirstSectionNamed | types.go:72-79 | The first section with the literal name, or the length. |
| Tree.Resolve | types.go:133-156 | getUnnamed: unmangleSectionName as written, then `Locate`. A resolved selector names an existing section. |
| Tree.Locate | types.go:139-156 | A located index names an existing section. |
| Tree.ResolvePlaceholder | types.go:133-156 | For `@t[n]`, with c the number of sections of t: the error is out of bounds iff n >= c or n < -c. Otherwise the result is the section of type t with n (or n + c when n is negative) earlier ones of its type. |
| Tree.ResolveNegative | types.go:143-145 | `@t[-k]` resolves to the same section as `@t[c - k]`. |
| Tree.ResolveEverySection | types.go:133-156 | Every section is reached by the selector of its own type and position. |
| Tree.ResolveUnclosed | types.go:133-134 | Get and getUnnamed parse as written, so `@a[12` designates the same section as `@a[1]`. |
| Tree.FirstDelMatch | types.go:187-205 | The first section from i that Del would stop at, or the length. |
| Tree.DelTarget | types.go:184-205 | Del stops at the first section whose name is the given name, or that is the n-th of its type when the name is a placeholder `@T[n]`. |
| Tree.PlaceholderTypeOf | types.go:375-380 | A synthetic name `@t[n]` is a placeholder name of type t' iff t' is t and n is not negative. |
| Tree.DelPlaceholder | types.go:184-209 | When no section is literally called `@t[n]`, Del of `@t[n]` removes the section of type t with n earlier ones of its type, or nothing when there are too few. |
| Tree.DelAgreesWithGet | types.go:133-209 | For an index in range and no section literally called `@t[n]`, Del removes exactly the section Get returns. |
| Tree.DelNegativeIsLiteral | types.go:188 | Del of `@t[-k]` removes only a section literally called so. |
| Tree.Header | types.go:40-44 | `\nconfig T\n` when the name is empty or a placeholder name of the section's own type, otherwise `\nconfig T 'N'\n`. `HeaderExample` and `HeaderOfPlaceholder` state the cases. |
| Tree.OptionText | types.go:47-54 | `\toption K 'V0'\n` for a single-value option, one `\tlist K 'v'\n` per value for a list. `OptionTextExample`, `ListTextExample` and `ListLinesAppend` state its properties. |
| Tree.ListLinesAppend | types.go:50-53 | A list option writes its values' lines in order, one after another. |
| Tree.OptionTextExample | types.go:48-49 | A single-value option writes only `\toption K 'V0'`, its first value. |
| Tree.ListTextExample | types.go:50-53 | A list option writes one `\tlist K 'v'` line per value, in order. |
| Tree.HeaderExample | types.go:40-44 | The header of a named section carries its name. Unnamed sections, and sections named by a placeholder of their own type, show only the type. |
| Tree.Block | types.go:40-55 | Every section's block starts with `\nconfig `. |
| Tree.HeaderOfPlaceholder | types.go:40-44 | A section named `@t[n]` with n >= 0 is written like an unnamed one. With n < 0 its name is written. |
| Tree.SectionsTextAppend | types.go:39-56 | The text of consecutive sections is their texts one after another. |
| Tree.SectionsTextSingle | types.go:39-56 | The text of one section is its block. |
| Tree.SectionsTextRemove | types.go:39-56 | Removing the k-th section removes exactly its block from the text. |
| Tree.WriteToSplit | types.go:36-59 | The output around the k-th section is the text of the sections before it, its block, then the text of the ones after it. |
| Tree.WriteToRemove | types.go:206-208 | After Config.Del removes section k, the text is the text of the sections before k followed by that of the sections after it: the old output with exactly k's block cut out. |
| Tree.WriteToAppend | types.go:158-160 | Appending a section appends exactly its block to the sections' text. |
| Tree.Config.constructor | types.go:28-34 | A new config with the given name and no sections. |
| Tree.Config.WriteTo | types.go:36-59 | The output always ends in a newline, and a config without sections writes exactly `"\n"`. |
| Tree.Config.Count | types.go:230-237 | The loop's count equals `CountType` of the sections. |
| Tree.Config.Index | types.go:218-228 | For a section in the config, the loop returns the number of sections of its type before its first occurrence. |
| Tree.Config.SectionName | types.go:211-216 | A section's key is its name, or the placeholder `@type[position]` when it is unnamed. |
| Tree.Config.GetNamed | types.go:72-79 | Null iff no section has the name. Otherwise it is the first section with the name. |
| Tree.Config.GetUnnamed | types.go:133-156 | The section at `Resolve(sections, name)`, or the same error: a bad selector from unmangleSectionName as written, or out of bounds. |
| Tree.Config.LocateSection | types.go:139-156 | The counting loop returns the section at `Locate(sections, sel)`, or the out-of-bounds error. |
| Tree.Config.Get | types.go:64-70 | A name starting with `@` gives the resolved section, or null on any error. Any other name gives the first section with that name. |
| Tree.Config.Add | types.go:158-161 | The section is appended and returned. |
| Tree.Config.Merge | types.go:163-182 | When some section has the incoming section's key, it is returned with every incoming option merged in, in order. The section list is unchanged. Otherwise the incoming section is appended and returned. No other section's options change. |
| Tree.Config.Del | types.go:184-209 | Exactly the section at `DelTarget` is removed, and the others keep their order. When nothing matches, nothing changes. |
| Tree.Config.DelPosition | types.go:185-205 | The loop with its per-type counter map stops at `FirstDelMatch`. |

## Left out

- The `io.Writer`, the `bytes.Buffer` and the `(n, err)` result of `WriteTo` are not modelled. `Tree.Config.WriteTo` returns the rendered text.
- Tree.Config.WriteTo: a single-value option without values makes the source panic on `opt.Values[0]`. This is a precondition of WriteTo (every such option has a value).
- Tree.Section.OptionLastValue: an option found with no values makes the source panic. This is a precondition.
- Tree.Config.Merge: `index` panics ("not reached") when an unnamed incoming section is not in a non-empty config. This is a precondition of Merge: the section is named, or in the config, or the config is empty.
- Tree.Config.GetUnnamed: the final `return nil, nil` is unreachable. The model proves the loop always finds the section once the bounds check passes.
- The regular expressions of `IsPlaceholderName` and `PlaceholderSection2Num` are modelled as explicit predicates. The section type is treated as literal text, although the source splices it into the pattern unescaped. `MustCompile` panicking on a malformed pattern is not modelled.
- Selectors.Atoi: integers are unbounded. The int64 range error of `strconv.Atoi` and its error text are not modelled. An optional leading `+` or `-` is accepted, as `strconv.Atoi` does.
- Selectors.PlaceholderSection2Num: the digits are read as an unbounded number. On digits beyond the int64 range, `strconv.Atoi` returns the clamped int64 maximum with a range error, and the source returns that maximum with no error. This is not modelled. The error text of a malformed name is abstracted to one error value.
- Strings are sequences of characters. The source's rune iteration over UTF-8 bytes is not modelled.
- The `tainted` field is never written by these operations. The JSON tags and the `parse` function used by the tests are not modelled.
- `Option` is a value, not a shared `*Option`. Section.Merge updates the option inside the section's list, so aliasing an `*Option` from elsewhere is not modelled. `Section` objects are shared as in the source.
- Tree.Config.Del: the source re-parses the name for every matching section. The model parses it once, with the selector parser that checks the closing bracket; Get and getUnnamed use the parser as written. The two parsers agree on every name that ends in `]` (`UnmangleAgreesWhenClosed`), and `IsPlaceholderName` holds only for such names.
- `newOption` and the definitions of `OptionType`, `TypeOption` and `TypeList` are not part of this model. `OptionType` is a two-value datatype.
- Tree.Option.MergeValues compares incoming values only against the old values, because `have` is never updated. So repeats inside the incoming list are all appended (`MergeValuesKeepsIncomingRepeats`).

## Findings

| source | as written | input that shows it | evidently intended | confidence | as-written member | corrected member |
|---|---|---|---|---|---|---|
| types.go:101-124 | `ket` is set to the last position and `]` is rejected anywhere else, but the last character is never checked to be `]`. The index is read from between `[` and the last character. | `@a[12` parses to type `a`, index 1 | the invalid-format error, as for any selector not of the form `@type[index]` | not executed | Selectors.UnmangleAsWritten, Selectors.TrailingCharIgnored, Tree.ResolveUnclosed | Selectors.Unmangle, Selectors.UnmangleShape |
