# LanguageDictionary localisation matching, modelled in Dafny

This project models the localisation-matching core of ios-driver's
`LanguageDictionary`. A dictionary holds one language's table from
localisation keys to templates. A template is a localised string that may
contain the runtime placeholders `%@` (an object) and `%d` (an integer).
Given text seen on screen, the dictionary reports every key whose template,
with each placeholder read as a wildcard, matches the whole text after NFKC
normalisation. It can also format a match back, filling the placeholders
with arguments.

Files and modules:

- `results.dfy` (`Results`): `Option`, `Result` and `Error`. Each exception path of the modelled operations is one `Error`; `FormatNotModelled` instead marks a format string outside the modelled `%s`/`%%` fragment, which Java may format or reject.
- `strings.dfy` (`Strings`): `String.replace`/`replaceAll` with a literal target, `endsWith`, and the line terminators that regex `.` refuses.
- `patterns.dfy` (`Patterns`): the token reading of a template (`Lit(c)` or `Wild`) and `getRegexPattern`.
  - `Compile` reads back the fragment of Java regex syntax that the patterns use: `(.*){1}` blocks and non-metacharacters.
  - `MatchTokens` is the whole-string match semantics of that fragment.
- `formatting.dfy` (`Formatting`): the `%s`/`%%` part of `String.format`, and `Fill`, a reference instantiation of a template.
- `locales.dfy` (`Locales`): the `Localizable` collaborator, as a record of functions over an abstract language type `L`.
- `bundle.dfy` (`Bundle`): `extractLanguageName` and `getL10NFiles`, over a directory listing given as data.
- `dictionary.dfy` (`LanguageDictionary`): the dictionary record, the constructor, `match`, `getPotentialMatches`, loading, `equals`, `hashCode` and `translate`.
- `properties.dfy` (`DictionaryProperties`): lemmas that relate these operations.

Collaborators that are not visible are parameters:

- NFKC normalisation is `norm: string -> string`.
- The Java regex engine, for patterns outside the modelled fragment, is a `RegexEngine`: `compiles(pattern)` is false when `Pattern.compile` throws a `PatternSyntaxException`, and `matches(pattern, input)` is the whole-string match of a compiled pattern.
- The language table is a `Localizable<L>`.
- A language's `hashCode` is `languageHash`.
- The outcome of reading and converting the binary resource file is a `Result` value passed to `CreateFromFile`.

Behaviour of the code worth noting:

- `translate` gives no argument-count error. With too few arguments, `String.format` fails (`MissingFormatArgument`). Extra arguments are ignored.
- A placeholder's wildcard also matches the empty text. So `Shipping from: %@` matches `Shipping from: ` on its own.
- `getL10NFiles` keeps every entry whose name ends in `lproj`. The dot is not part of the test.
- `extractLanguageName` removes the first match of the regex `.lproj`, and its `.` matches any character except a line terminator. So `en-lproj` gives `en`.
- Translating and then matching the result against the same template can fail. An argument holding a line terminator is refused by the wildcard's `.`. An argument that normalisation composes with the template text also breaks the match: `e%@` with the argument U+0301 translates to `e` followed by U+0301, which NFKC turns into `é`, and `e(.*){1}` does not match that.
- Template characters that are regex metacharacters are not escaped. The model reads such patterns through the `RegexEngine` parameter.

## Model

| member | source | states |
|---|---|---|
| LanguageDictionary.NewDictionary | server/src/main/java/org/uiautomation/ios/server/application/LanguageDictionary.java:58-69 | construction succeeds iff the name is in the legacy or the new form; `legacyFormat` holds iff it is in the legacy form; the language comes from the matching converter; the table starts empty; otherwise the error names the refused language |
| DictionaryProperties.ConstructFromTableNames | server/src/main/java/org/uiautomation/ios/server/application/LanguageDictionary.java:58-69 | with a consistent language table, a language's legacy name gives a legacy dictionary of that language, and its new name gives a new-format one |
| Patterns.GetRegexPattern | server/src/main/java/org/uiautomation/ios/server/application/LanguageDictionary.java:102-106 | the pattern is the template's token reading with every `%@` and `%d` spelled `(.*){1}` and every other character kept in order; no `%@` or `%d` is left |
| Patterns.TwoPassReplace | server/src/main/java/org/uiautomation/ios/server/application/LanguageDictionary.java:103-104 | replacing all `%@` and then all `%d` is the same as one left-to-right pass that replaces both |
| Patterns.RenderHasNoPlaceholder | server/src/main/java/org/uiautomation/ios/server/application/LanguageDictionary.java:102-106 | a rendering whose replacement text has no `%` leaves no placeholder behind |
| Patterns.PatternCompiles | server/src/main/java/org/uiautomation/ios/server/application/LanguageDictionary.java:91-93 | the pattern of a metacharacter-free template compiles to that template's token reading |
| Patterns.CompileRender | server/src/main/java/org/uiautomation/ios/server/application/LanguageDictionary.java:93 | compiling a rendering whose literals are not metacharacters gives the tokens back |
| Patterns.TokenizeNoMeta | server/src/main/java/org/uiautomation/ios/server/application/LanguageDictionary.java:102-106 | the literals read from a metacharacter-free template are not metacharacters |
| Patterns.LiteralTemplateMatch | server/src/main/java/org/uiautomation/ios/server/application/LanguageDictionary.java:93 | a placeholder-free pattern matches a string iff the string equals it (whole-string match) |
| Patterns.PrefixWildMatch | server/src/main/java/org/uiautomation/ios/server/application/LanguageDictionary.java:93-103 | a literal prefix and then one wildcard match exactly the strings that start with the prefix and continue without a line terminator |
| Patterns.TokenizeConcat | server/src/main/java/org/uiautomation/ios/server/application/LanguageDictionary.java:103-104 | the token reading of a concatenation is the concatenation of the readings when no placeholder straddles the seam |
| DictionaryProperties.LiteralTemplateMatchesExactly | server/src/main/java/org/uiautomation/ios/server/application/LanguageDictionary.java:86-94 | a normalised template without placeholders or metacharacters matches a candidate iff the two normal forms are equal |
| DictionaryProperties.ShippingTemplateMatches | server/src/main/java/org/uiautomation/ios/server/application/LanguageDictionary.java:86-106 | `Shipping from: %@` matches exactly the candidates whose normal form is `Shipping from: ` followed by line-terminator-free text, the empty text included |
| DictionaryProperties.ShippingFromAnyPlace | server/src/main/java/org/uiautomation/ios/server/application/LanguageDictionary.java:101-106 | `Shipping from: ` followed by line-terminator-free text matches `Shipping from: %@`, for candidates that normalisation leaves unchanged |
| DictionaryProperties.ShippingToDoesNotMatch | server/src/main/java/org/uiautomation/ios/server/application/LanguageDictionary.java:101-106 | `Shipping to: Berlin` does not match `Shipping from: %@` |
| DictionaryProperties.MatchIgnoresPriorNormalisation | server/src/main/java/org/uiautomation/ios/server/application/LanguageDictionary.java:86-88 | with an idempotent normalisation, normalising the candidate or the template beforehand does not change the outcome |
| LanguageDictionary.GetPotentialMatches | server/src/main/java/org/uiautomation/ios/server/application/LanguageDictionary.java:71-84 | the results' keys are exactly the keys whose template matches, with no key twice; each result carries the dictionary's language, the key, its template, the candidate and no arguments |
| DictionaryProperties.ScanSkipsBadTemplate | server/src/main/java/org/uiautomation/ios/server/application/LanguageDictionary.java:92-98 | a template whose pattern fails to compile contributes no key, and every other key matches as before |
| LanguageDictionary.ConvertToMap | server/src/main/java/org/uiautomation/ios/server/application/LanguageDictionary.java:152-161 | the map has exactly the JSON object's keys, each with its value |
| LanguageDictionary.AddJsonContent | server/src/main/java/org/uiautomation/ios/server/application/LanguageDictionary.java:140-143 | the table becomes exactly the converted map, so no key from before survives unless the object has it; language and format are kept |
| DictionaryProperties.LoadThenScan | server/src/main/java/org/uiautomation/ios/server/application/LanguageDictionary.java:71-84 | after a load, the scan reports exactly the loaded keys whose template matches, with the loaded templates |
| LanguageDictionary.CreateFromFile | server/src/main/java/org/uiautomation/ios/server/application/LanguageDictionary.java:169-176 | an unrecognised folder language fails first, whatever the read gave; a failed read fails next; a recognised language with a successful read gives the constructed dictionary holding the read table |
| Bundle.ReplaceFirstLproj | server/src/main/java/org/uiautomation/ios/server/application/LanguageDictionary.java:181 | without a match of `.lproj` the name is unchanged; otherwise exactly the leftmost match is removed |
| Bundle.ExtractStripsSuffix | server/src/main/java/org/uiautomation/ios/server/application/LanguageDictionary.java:179-183 | a folder `<name>.lproj`, where `<name>` holds no match of `.lproj`, gives the language name `<name>` |
| Bundle.ExtractDotIsWildcard | server/src/main/java/org/uiautomation/ios/server/application/LanguageDictionary.java:181 | `en.lproj` and `en-lproj` both give `en`; `lproj` is unchanged |
| Bundle.LocaleFolders | server/src/main/java/org/uiautomation/ios/server/application/LanguageDictionary.java:117-122 | an entry is kept iff its name ends with `lproj`; a listing whose entries all pass is kept whole, in order |
| Bundle.LocaleFoldersAppend | server/src/main/java/org/uiautomation/ios/server/application/LanguageDictionary.java:117-122 | filtering a split listing gives the filtered parts in order, so the filter keeps listing order |
| Bundle.GetL10NFiles | server/src/main/java/org/uiautomation/ios/server/application/LanguageDictionary.java:115-132 | succeeds iff every kept folder holds `Localizable.strings`, returning their paths in order; otherwise the error names the path missing in the first such folder |
| LanguageDictionary.Wrap32 | server/src/main/java/org/uiautomation/ios/server/application/LanguageDictionary.java:255-258 | the 32-bit result is congruent to the exact one modulo 2^32 |
| DictionaryProperties.EqualsIsLanguageEquality | server/src/main/java/org/uiautomation/ios/server/application/LanguageDictionary.java:262-270 | two dictionaries are equal iff their languages are, whatever their tables hold; null and other classes are never equal |
| DictionaryProperties.EqualsIsEquivalence | server/src/main/java/org/uiautomation/ios/server/application/LanguageDictionary.java:262-270 | equals is reflexive, symmetric and transitive |
| DictionaryProperties.HashCodeConsistent | server/src/main/java/org/uiautomation/ios/server/application/LanguageDictionary.java:253-270 | equal dictionaries have equal hash codes, and the hash code ignores the table |
| DictionaryProperties.TranslateFillsPlaceholders | server/src/main/java/org/uiautomation/ios/server/application/LanguageDictionary.java:272-277 | with no `%` outside placeholders, the result is the template with the i-th placeholder replaced by the i-th argument; too few arguments fail, extra ones are ignored |
| DictionaryProperties.TranslateMissingKey | server/src/main/java/org/uiautomation/ios/server/application/LanguageDictionary.java:273-274 | a key absent from the table fails with `MissingKey` |
| DictionaryProperties.TranslateThenMatch | server/src/main/java/org/uiautomation/ios/server/application/LanguageDictionary.java:272-277 | a translated plain template is found again by the scan under the same key, provided no argument holds a line terminator and normalisation leaves both the template and the translated text unchanged |
| Formatting.FormatRenderedTemplate | server/src/main/java/org/uiautomation/ios/server/application/LanguageDictionary.java:274-276 | formatting the template with `%s` in place of each placeholder instantiates it in argument order, or fails when arguments run out |
| Formatting.FillMatches | server/src/main/java/org/uiautomation/ios/server/application/LanguageDictionary.java:276 | an instantiation with line-terminator-free arguments matches the tokens it came from |
| Strings.ReplaceAllAbsent | server/src/main/java/org/uiautomation/ios/server/application/LanguageDictionary.java:103-104 | replacing a target that never occurs leaves the string unchanged |
| Strings.ReplaceAllConcat | server/src/main/java/org/uiautomation/ios/server/application/LanguageDictionary.java:103-104 | for a two-character target, replacement distributes over concatenation when no occurrence straddles the seam |

## Left out

- `readContentFromBinaryFile`, `convertL10NFile` and `readJSONFile` are not modelled. They run the external `plutil` process and use temporary files, file streams and UTF-8 decoding. `CreateFromFile` takes their outcome as a parameter.
- JSON parsing and `JSONObject.getString` are not modelled, because they are a foreign library. A JSON object is a `map<string, string>`, so a non-string value that `getString` would reject cannot occur. The source clears the table before converting, so such a failure would leave it empty; that case is not modelled.
- Unicode NFKC is the parameter `norm`. Its tables are not modelled. Where a lemma needs normalisation to leave an ASCII text unchanged, it states that as a hypothesis.
- Java regex semantics for patterns outside the fragment (unescaped metacharacters in a template) are delegated to the `RegexEngine` parameter.
- `String.format` is modelled only for `%s` and `%%`. Other conversions, flags, widths and positional arguments give `FormatNotModelled`.
- `HashMap` iteration order is not modelled. `GetPotentialMatches` visits keys in an arbitrary order, and its results are described as a set of keys.
- `Localizable`'s name table is not part of this model. `ValidTable` states what a consistent table guarantees.
- Java `char` is a UTF-16 code unit. A Dafny `char` is a Unicode scalar value, so surrogate pairs are not modelled.
- `getL10NFiles` on a path that is not a directory, where `listFiles` returns null, is not modelled. The listing is given as data, in the order `listFiles` returned it.
- `extractLanguageName` takes the parent folder's name. A file without a parent, where `getParentFile` returns null, is not modelled.
- `hashCode`'s null-language branch is not modelled: the constructor always sets a language. The language's own hash is the parameter `languageHash`.
- `equals`'s `this == obj` shortcut has no separate case: an object always has its own language, so the language comparison covers it.
- ContentResult.java is not part of this model. Its four-argument constructor, used by `getPotentialMatches`, is taken to start with an empty argument list.
- `isLegacyFormat` and `getLanguage` are plain field reads of the `Dictionary` record.
- DragFromToForDurationNHander.java is not part of this model. It builds a UIAutomation script string from request and session objects that are not visible.
- DictionaryProperties.LiteralTemplateMatchesExactly: its hypotheses (no placeholder, no metacharacter) are stated on the normalised template rather than the raw one, because normalisation is uninterpreted.
- DictionaryProperties.ShippingFromAnyPlace: it covers only candidates that normalisation leaves unchanged (so not text such as `ﬁ`, which NFKC rewrites); `DictionaryProperties.ShippingTemplateMatches` states the general case through the candidate's normal form.
- DictionaryProperties.ShippingTemplateMatches: it assumes that normalisation leaves the ASCII template unchanged, rather than deriving that from NFKC.
- A bundle at the root path `/` is not modelled. `ResourcePath` joins with `/`, which would give `//fr.lproj/Localizable.strings` where `java.io.File` gives `/fr.lproj/Localizable.strings`.
