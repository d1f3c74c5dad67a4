# MapillarySign in Dafny

A model of `MapillarySign`, the traffic-sign catalogue of the Mapillary plugin
for JOSM, with proofs of what it promises. A sign has a composite full name
`category--type--country[--variant]`. The catalogue maps a country code and a
short sign name to a sign. It is loaded once from one resource of
`shortName: 'fullName'` lines per country.

- `Wrappers.dfy`: `Option` (with `None` for Java's `null`) and `Result`
  (with `Failure` for an exception that ends an operation).
- `JavaString.dfy`: the `java.lang.String` behaviour the class relies on.
  - `split` with a literal separator: a string without the separator gives
    itself alone; leading empty fields are kept and trailing ones dropped.
  - `trim`, `replace("'", "")`, and `hashCode` in 32-bit arithmetic.
- `Signs.dfy`: the sign record and its constructor, plus `toString`,
  `equals` and `hashCode`. Signs are values, and the constructor's failure on
  a short name is a precondition.
- `SignCatalogue.dfy`:
  - The static initializer, as the methods `LoadCatalogue` and
    `LoadCountry`. They are proved equal to the functions `Load` and
    `ParseLines`.
  - `getSign`, as the function `GetSign`.
  - The lemmas about loading and lookup.

The catalogue is an explicit value, `map<string, CountryMap>`. `CountryMap` is
a `map<string, Sign>` whose signs are all ones the constructor built. Resource
I/O is replaced by a map from country code to that resource's lines. A
country with no entry in that map stands for a missing resource.

An exception in the static initializer aborts the load. Two kinds are
modelled:
- a line with no second `:` field (an array index error);
- a value that is not a composite name (the constructor fails).

The model returns this as `Failure(LoadError(country, line index, reason))`
for the first bad line, in the order the loops read.

The constructor's documentation says it fails when the name does not match
`.*--.*--.*`. The code, which the model follows, is stricter: `split` drops
trailing empty fields, so the name also needs a non-empty field after its
second separator. `CompositeNameHasThirdPiece` states the exact condition.
`TrailingEmptyFieldRefused` shows that `a--b--` matches the pattern and is
still refused. `HasTwoSeparators` is "two non-overlapping `--`"; it is the
documented expression only for names without line terminators, which the
expression's `.` does not match. The failure is an array index error, not the
`NullPointerException` the comment names.

## Model

| member | source | states |
|---|---|---|
| JavaString.IndexFrom | src/org/openstreetmap/josm/plugins/mapillary/MapillarySign.java:64 | the result is the first occurrence of the separator at or after `from`; `None` means there is none |
| JavaString.Split | src/org/openstreetmap/josm/plugins/mapillary/MapillarySign.java:64 | `split`: a string without the separator gives `[s]`; otherwise the result is a prefix of all the pieces, whatever follows is empty, and its last field is non-empty |
| JavaString.DropTrailingEmpty | src/org/openstreetmap/josm/plugins/mapillary/MapillarySign.java:64 | the longest prefix that does not end in an empty string, with only empty strings dropped |
| JavaString.JoinPiecesFrom | src/org/openstreetmap/josm/plugins/mapillary/MapillarySign.java:64 | joining the pieces with the separator rebuilds the text they were cut from |
| JavaString.PiecesFromAvoidSeparator | src/org/openstreetmap/josm/plugins/mapillary/MapillarySign.java:64 | no piece contains the separator |
| JavaString.SplitDecomposes | src/org/openstreetmap/josm/plugins/mapillary/MapillarySign.java:64 | joining all pieces gives the name back, and no field of `split` contains the separator |
| JavaString.SplitFirstTwoFields | src/org/openstreetmap/josm/plugins/mapillary/MapillarySign.java:43-44 | with two or more fields and `i` the first separator's index, field 0 is the text before `i` and field 1 the text up to the next separator or the end |
| JavaString.JoinHasPrefix | src/org/openstreetmap/josm/plugins/mapillary/MapillarySign.java:64-67 | joining the first n+1 pieces gives a prefix of joining them all |
| JavaString.SkipLeading | src/org/openstreetmap/josm/plugins/mapillary/MapillarySign.java:44 | skips exactly the run of characters up to U+0020 at the start |
| JavaString.SkipTrailing | src/org/openstreetmap/josm/plugins/mapillary/MapillarySign.java:44 | skips exactly the run of characters up to U+0020 at the end |
| JavaString.Trim | src/org/openstreetmap/josm/plugins/mapillary/MapillarySign.java:44 | `trim`: an infix of the input with only trimmable characters around it, neither starting nor ending with one |
| JavaString.RemoveChar | src/org/openstreetmap/josm/plugins/mapillary/MapillarySign.java:43 | `replace("'", "")`: no quote is left, every other character keeps its count, and a quote-free line is unchanged |
| JavaString.RemoveCharAppend | src/org/openstreetmap/josm/plugins/mapillary/MapillarySign.java:43 | removal works piece by piece, so the kept characters stay in their order |
| JavaString.RemoveCharSingle | src/org/openstreetmap/josm/plugins/mapillary/MapillarySign.java:43 | a single character is dropped exactly when it is the removed one |
| JavaString.ToInt32 | src/org/openstreetmap/josm/plugins/mapillary/MapillarySign.java:124 | the 32-bit two's-complement value congruent to the argument modulo 2^32 |
| JavaString.StringHash | src/org/openstreetmap/josm/plugins/mapillary/MapillarySign.java:124 | `String.hashCode` stays in the 32-bit range |
| JavaString.StringHashIsPolynomial | src/org/openstreetmap/josm/plugins/mapillary/MapillarySign.java:124 | the hash equals `s[0]*31^(n-1) + ... + s[n-1]` modulo 2^32 |
| JavaString.OffsetHashIsPolynomial | src/org/openstreetmap/josm/plugins/mapillary/MapillarySign.java:124 | `31 + hashCode`, reduced to 32 bits, is congruent to `31 + ` the polynomial hash modulo 2^32 |
| JavaString.OccursInSlice | src/org/openstreetmap/josm/plugins/mapillary/MapillarySign.java:64 | an occurrence inside a slice is an occurrence in the whole string, inside the slice's bounds |
| JavaString.PiecesFrom | src/org/openstreetmap/josm/plugins/mapillary/MapillarySign.java:64 | cutting at the separators always yields at least one piece |
| JavaString.Pieces | src/org/openstreetmap/josm/plugins/mapillary/MapillarySign.java:64 | a whole string yields at least one piece |
| Signs.MakeSign | src/org/openstreetmap/josm/plugins/mapillary/MapillarySign.java:62-73 | the constructor keeps `fullName` unchanged and takes category, type and country from parts 0, 1 and 2; `variant` is part 3 exactly when there are four parts, and absent for three or for five or more; it needs at least three parts |
| Signs.CompositeNameHasThirdPiece | src/org/openstreetmap/josm/plugins/mapillary/MapillarySign.java:64-67 | the constructor accepts a name exactly when a non-empty piece follows its second separator |
| Signs.CompositeNameHasTwoSeparators | src/org/openstreetmap/josm/plugins/mapillary/MapillarySign.java:57-61 | every accepted name contains two non-overlapping `--` |
| Signs.TrailingEmptyFieldRefused | src/org/openstreetmap/josm/plugins/mapillary/MapillarySign.java:57-67 | `a--b--` contains two non-overlapping `--` but splits into two parts, so the constructor refuses it |
| Signs.FieldsSpellName | src/org/openstreetmap/josm/plugins/mapillary/MapillarySign.java:62-72 | the name begins with `category--type--country`, then `--variant` when there is a variant; no field contains `--`, and the variant is non-empty |
| Signs.PartsPrefix | src/org/openstreetmap/josm/plugins/mapillary/MapillarySign.java:64-69 | the first n+1 parts, joined with `--`, begin the name |
| Signs.ToString | src/org/openstreetmap/josm/plugins/mapillary/MapillarySign.java:117-120 | `toString` returns the full name |
| Signs.Equals | src/org/openstreetmap/josm/plugins/mapillary/MapillarySign.java:127-139 | `equals` is false for `null` and otherwise compares full names |
| Signs.HashCode | src/org/openstreetmap/josm/plugins/mapillary/MapillarySign.java:122-125 | `hashCode` is a 32-bit value congruent to `31 + ` the polynomial hash of the full name, modulo 2^32 |
| Signs.EqualsContract | src/org/openstreetmap/josm/plugins/mapillary/MapillarySign.java:117-139 | `equals` is reflexive, symmetric and transitive, false for `null`, and agrees with comparing `toString`; equal signs have equal hash codes |
| Signs.EqualsIsValueEquality | src/org/openstreetmap/josm/plugins/mapillary/MapillarySign.java:127-139 | for signs the constructor built, `equals` holds exactly when they are the same value |
| SignCatalogue.ParseLine | src/org/openstreetmap/josm/plugins/mapillary/MapillarySign.java:42-44 | a line is skipped exactly when it is empty |
| SignCatalogue.ParseLineNoColon | src/org/openstreetmap/josm/plugins/mapillary/MapillarySign.java:43-44 | a non-empty line with no `:` after removing quotes is malformed for lack of a value |
| SignCatalogue.ParseLineEntryIff | src/org/openstreetmap/josm/plugins/mapillary/MapillarySign.java:43-44 | a non-empty line with a `:` makes an entry if and only if the trimmed field after its first `:` is a composite name |
| SignCatalogue.ParseLineEntryWhen | src/org/openstreetmap/josm/plugins/mapillary/MapillarySign.java:43-44 | a non-empty line whose trimmed field after the first `:` is a composite name makes an entry |
| SignCatalogue.ParseLineWellFormed | src/org/openstreetmap/josm/plugins/mapillary/MapillarySign.java:44 | every entry's sign is one the constructor built from the line's value |
| SignCatalogue.ParseLineHasColon | src/org/openstreetmap/josm/plugins/mapillary/MapillarySign.java:43-44 | a line that makes an entry contains a `:` once its quotes are removed |
| SignCatalogue.ParseLineFields | src/org/openstreetmap/josm/plugins/mapillary/MapillarySign.java:43-44 | after removing quotes, with `i` the index of the first `:`, an entry's key is the trimmed text before `i`, which holds no `:`; its sign's full name is the trimmed text between the first and second `:` (or the end) |
| SignCatalogue.Outcomes | src/org/openstreetmap/josm/plugins/mapillary/MapillarySign.java:41-46 | one outcome per line |
| SignCatalogue.OutcomesWellFormed | src/org/openstreetmap/josm/plugins/mapillary/MapillarySign.java:41-46 | every entry the lines make carries a sign the constructor built |
| SignCatalogue.OutcomesAt | src/org/openstreetmap/josm/plugins/mapillary/MapillarySign.java:41-46 | outcome i is what line i parses to |
| SignCatalogue.OutcomesPrefix | src/org/openstreetmap/josm/plugins/mapillary/MapillarySign.java:41-46 | the outcomes of the first k lines are the first k outcomes |
| SignCatalogue.ReadLines | src/org/openstreetmap/josm/plugins/mapillary/MapillarySign.java:41-46 | a failure names the country and a line that exists |
| SignCatalogue.ReadLinesWellFormed | src/org/openstreetmap/josm/plugins/mapillary/MapillarySign.java:44 | the country map holds only signs the constructor built |
| SignCatalogue.ParseLines | src/org/openstreetmap/josm/plugins/mapillary/MapillarySign.java:41-46 | one resource read into a country map is the fold of its line outcomes |
| SignCatalogue.ReadLinesFailsAtFirstMalformed | src/org/openstreetmap/josm/plugins/mapillary/MapillarySign.java:41-46 | reading succeeds exactly when no line is malformed; otherwise the error reports the first malformed line |
| SignCatalogue.ReadLinesKeys | src/org/openstreetmap/josm/plugins/mapillary/MapillarySign.java:41-46 | the keys are exactly those some line makes an entry for |
| SignCatalogue.ReadLinesLastEntryWins | src/org/openstreetmap/josm/plugins/mapillary/MapillarySign.java:44 | each key holds the sign of the last line with that key, because `put` overwrites |
| SignCatalogue.ReadLinesLast | src/org/openstreetmap/josm/plugins/mapillary/MapillarySign.java:44 | the last line's entry is stored under its key; a key it does not define keeps its earlier sign, or stays absent |
| SignCatalogue.ReadLinesFailurePersists | src/org/openstreetmap/josm/plugins/mapillary/MapillarySign.java:41-46 | once the lines read so far have failed, the whole resource fails with that error |
| SignCatalogue.ParseLinesFailure | src/org/openstreetmap/josm/plugins/mapillary/MapillarySign.java:41-46 | a resource loads exactly when none of its lines is malformed; otherwise the error names the first malformed line |
| SignCatalogue.ParseLinesContents | src/org/openstreetmap/josm/plugins/mapillary/MapillarySign.java:41-46 | empty lines are skipped; the keys are exactly those of the entry lines, each mapped to the sign of its last line |
| SignCatalogue.ParseLinesAbort | src/org/openstreetmap/josm/plugins/mapillary/MapillarySign.java:43-44 | a malformed line reached after all earlier lines loaded is the error of the whole resource |
| SignCatalogue.LoadCountries | src/org/openstreetmap/josm/plugins/mapillary/MapillarySign.java:31-54 | only the listed countries get a catalogue entry |
| SignCatalogue.LoadCountriesContents | src/org/openstreetmap/josm/plugins/mapillary/MapillarySign.java:31-54 | after a successful load the countries present are exactly the listed ones with a resource, each mapped to what its lines give |
| SignCatalogue.LoadCountriesFailurePersists | src/org/openstreetmap/josm/plugins/mapillary/MapillarySign.java:31-54 | once a country has failed, the whole load fails with that error |
| SignCatalogue.LoadCountriesFails | src/org/openstreetmap/josm/plugins/mapillary/MapillarySign.java:31-54 | the load fails exactly when some listed country with a resource has a malformed line |
| SignCatalogue.LoadCountry | src/org/openstreetmap/josm/plugins/mapillary/MapillarySign.java:40-47 | the read loop over one resource, building the map with `put`, returns exactly `ParseLines` of its lines |
| SignCatalogue.LoadCatalogue | src/org/openstreetmap/josm/plugins/mapillary/MapillarySign.java:20-55 | the loop over `au, br, ca, eu, us` returns exactly `Load` of the resources, where `Load` is `LoadCountries` over the constant `COUNTRIES` in that order |
| SignCatalogue.GetSign | src/org/openstreetmap/josm/plugins/mapillary/MapillarySign.java:75-95 | unknown country gives `None`; a known key gives exactly its stored sign; otherwise a result exists exactly when the name has at least three parts, and it is then the sign built from the name, taken from the catalogue when an equal one is there; every result is a well-formed sign |
| SignCatalogue.SearchFindsEqualSign | src/org/openstreetmap/josm/plugins/mapillary/MapillarySign.java:84-87 | when `containsValue` finds an equal sign, the stream search by `toString` finds one too (the `assert` holds), and every sign it can find is the sign built from the name |
| SignCatalogue.LookupWithoutResource | src/org/openstreetmap/josm/plugins/mapillary/MapillarySign.java:76-80 | a country that is not listed or has no resource is unknown to the lookup, whatever the name |
| SignCatalogue.LookupLastEntry | src/org/openstreetmap/josm/plugins/mapillary/MapillarySign.java:81-82 | after loading, a short name gives the sign of the last line defining it |
| SignCatalogue.LookupUndefinedName | src/org/openstreetmap/josm/plugins/mapillary/MapillarySign.java:83-93 | after loading, a name no line defines gives a new sign with that full name when it has at least three parts, and `None` otherwise |

## Left out

- Resource access and reading: `getResource`, `getResourceAsStream`, the
  UTF-8 reader, `readLine` and `close` (lines 33-39, 49). The loader takes
  each country's lines as input, and a missing resource is a country absent
  from that input.
- The `IOException` handler and `Main.error` (lines 50-52). A read failure
  is not modelled separately from a missing resource, since in both cases
  the country is never stored.
- The logging calls `Main.warn` (lines 78, 92): only the `null` result is
  modelled.
- The class after a failed static initializer: the model returns the
  failure, and what later uses of the class would do is not modelled.
- Object identity: on a catalogue hit for a full name, Java returns the
  stored instance and otherwise a fresh one. As values these are the same
  sign (`SearchFindsEqualSign`). The "catalogue unchanged" property holds
  because `GetSign` is a function.
- The `this == o` shortcut, the other-class branch and the `null`-field
  branches of `equals` and `hashCode` (lines 129-137, 124). The shortcut
  agrees with comparing names, and the argument type is always a sign. The
  field is never `null`, because the constructor calls `split` on it.
- The getters (lines 97-115): they are the datatype's fields.
- Characters: Java strings are UTF-16 code units, Dafny strings are Unicode
  scalar values. `StringHash` agrees with Java only for text in the Basic
  Multilingual Plane. `Trim` agrees for all text, because neither surrogates
  nor supplementary characters are at most U+0020.
- Static-initialization timing and class-loading races: the catalogue is a
  value built once.
- The test helper `JsonUtil.string2jsonObject`: it only calls an external
  JSON parser.
