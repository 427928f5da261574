# JSON data store: record lookup

A model of the lookup logic of `JSONDataStore`, a custom data source that
answers attribute queries from a JSON file. The file holds a document whose
`"users"` field is an array of flat JSON objects (records). A query names an
identifying attribute (configuration), a filter value and a collection of
attribute names to fill. The store scans the records in document order,
selects the first one whose identifying attribute equals the filter value, and
returns a map from each requested name to that record's value (a string or a
list of strings), to `null` when the record lacks the attribute, or to the
string `"null"` for every name when no record matches. Schema discovery
(`getAvailableFields`) reports the sorted attribute names of the first record.

Files:

- `string_order.dfy` (module `StringOrder`): the natural order of Java
  strings that the sort uses, with its order laws (a prefix sorts first,
  total, antisymmetric, transitive).
- `json_data_store.dfy` (module `JsonDataStore`): the data model (`Value`,
  `Record`, `Source`, `Outcome`), the first-match specification `FirstMatch`,
  the reference answer `Answer`, the imperative `RetrieveValues` and
  `AttributesFromMap` proved against them, the properties of a lookup, and
  schema discovery (`SortList`, `AvailableFields`).
- `scenarios.dfy` (module `JsonDataStoreScenarios`): concrete lookups on a
  two-user document and the fact that the case-sensitivity setting has no
  effect.

The three outcomes of one requested name are the constructors of `Outcome`:
`Present(v)` (the Java `AttributeValue`), `Absent` (the Java `null` put for a
name the found record lacks) and `NotFoundMarker` (the Java string `"null"`
put for every name when no record matches).

The model follows what the code does, including where it departs from what
its own configuration text promises or from what a careful store would do:

- The configuration field "Case Sensitive?" (JSONDataStore.java:50-51)
  defaults to unchecked (line 78), which promises a case-insensitive
  comparison by default. The setting is read by `configure` (line 100) but
  never used; the comparison at line 151 is always `String.equals`, exact and
  case-sensitive. A filter differing from a record's identifier only in
  letter case finds nothing (`MixedCaseFilterFindsNothing`), and no case
  folding is modelled.
- A record whose identifying attribute holds a JSON array is not skipped: the
  cast to `String` throws. `RetrieveValues` therefore requires that no record
  reached by the scan holds an array there (`ScanCastsSucceed`); records after
  the first match are never cast and may hold anything.
- Load failures are not reported distinctly: an `IOException` is swallowed and
  the query degrades to the not-found result (`Source.Unreadable`).

## Model

| member | source | states |
|---|---|---|
| `StringOrder.LessEq` | src/com/pingidentity/datastore/JSONDataStore.java:247 | the natural order `a.compareTo(b) <= 0` the sort uses: lexicographic on characters, and every prefix of a string sorts no later than it |
| `StringOrder.LessEqTotal` | src/com/pingidentity/datastore/JSONDataStore.java:247 | any two strings are comparable in the natural string order the sort uses |
| `StringOrder.LessEqAntisymmetric` | src/com/pingidentity/datastore/JSONDataStore.java:247 | two strings that each sort no later than the other are equal |
| `StringOrder.LessEqTransitive` | src/com/pingidentity/datastore/JSONDataStore.java:247 | the natural string order is transitive |
| `JsonDataStore.IsMatch` | src/com/pingidentity/datastore/JSONDataStore.java:147-151 | a record without the identifying attribute never matches; one holding a string there matches exactly when that string equals the filter character for character; one holding an array never matches (the code throws instead, excluded by `ScanCastsSucceed`) |
| `JsonDataStore.FirstMatch` | src/com/pingidentity/datastore/JSONDataStore.java:143-154 | the index found holds the identifying attribute with exactly the filter as its string value and no earlier record does; no index means no record matches |
| `JsonDataStore.Lookup` | src/com/pingidentity/datastore/JSONDataStore.java:133-161 | an unreadable file (the swallowed `IOException`) selects no record; otherwise the record selected is the first matching one, and none is selected only when no record matches |
| `JsonDataStore.Answer` | src/com/pingidentity/datastore/JSONDataStore.java:125-171 | the result of `retrieveValues`: its keys are exactly the requested names, and a name maps to the not-found marker exactly when no record was selected |
| `JsonDataStore.AttributesFromMap` | src/com/pingidentity/datastore/JSONDataStore.java:200-224 | the result's keys are exactly the requested names; a name the record holds maps to its value verbatim, a name it lacks maps to `Absent` |
| `JsonDataStore.RetrieveValues` | src/com/pingidentity/datastore/JSONDataStore.java:125-171 | the result's keys are exactly the requested names and the result is the projection of the first matching record, or the not-found marker for every name when the file is unreadable or nothing matches; the case-sensitivity argument does not enter the result |
| `JsonDataStore.LookupSelectsFirstExactMatch` | src/com/pingidentity/datastore/JSONDataStore.java:143-154 | a record that matches with no matching record before it is the one selected, and its identifying value is exactly the filter |
| `JsonDataStore.RecordsWithoutIdAreSkipped` | src/com/pingidentity/datastore/JSONDataStore.java:147 | inserting a record without the identifying attribute anywhere in the array never changes which record a lookup selects |
| `JsonDataStore.LaterRecordsAreIgnored` | src/com/pingidentity/datastore/JSONDataStore.java:151-153 | once a record matches, appending further records (matching or not) does not change the selection |
| `JsonDataStore.FoundRecordIsProjected` | src/com/pingidentity/datastore/JSONDataStore.java:202-223 | with a record found, the answer has exactly the requested keys, each held name maps to the record's value, each lacking name to `Absent`, and the not-found marker never appears |
| `JsonDataStore.MissFloodsNotFoundMarker` | src/com/pingidentity/datastore/JSONDataStore.java:159-170 | with the file unreadable or no record matching, the answer has exactly the requested keys, all mapped to the not-found marker |
| `JsonDataStore.EmptyUsersNeverMatch` | src/com/pingidentity/datastore/JSONDataStore.java:139 | an empty users array selects no record; the answer has exactly the requested keys, each mapped to the not-found marker |
| `JsonDataStore.Insert` | src/com/pingidentity/datastore/JSONDataStore.java:247 | inserting into a sorted list keeps it sorted and adds exactly the one element |
| `JsonDataStore.SortList` | src/com/pingidentity/datastore/JSONDataStore.java:245-249 | the result is in non-decreasing order and is a permutation of the input collection |
| `JsonDataStore.SortedHeadsAgree` | src/com/pingidentity/datastore/JSONDataStore.java:247 | two non-empty sorted lists with the same elements begin with the same element |
| `JsonDataStore.SortedPermutationIsUnique` | src/com/pingidentity/datastore/JSONDataStore.java:247 | two sorted lists with the same elements are equal, so every correct sort gives the same list |
| `JsonDataStore.SortListIgnoresInputOrder` | src/com/pingidentity/datastore/JSONDataStore.java:245-249 | the sorted list depends only on the collection's contents, not on its iteration order |
| `JsonDataStore.PermutationKeepsNoDuplicates` | src/com/pingidentity/datastore/JSONDataStore.java:189 | sorting a duplicate-free key list leaves it duplicate-free |
| `JsonDataStore.KeyList` | src/com/pingidentity/datastore/JSONDataStore.java:189 | the record's key set enumerated in some order: exactly its keys, each once |
| `JsonDataStore.AvailableFields` | src/com/pingidentity/datastore/JSONDataStore.java:175-197 | a list exists exactly when the file was read and the array is non-empty; it is sorted, duplicate-free and holds exactly the first record's keys |
| `JsonDataStore.AvailableFieldsIgnoreKeyOrder` | src/com/pingidentity/datastore/JSONDataStore.java:187-189 | whatever order the first record's keys are enumerated in, the reported list is the sort of that enumeration |
| `JsonDataStore.AvailableFieldsSampleFirstRecord` | src/com/pingidentity/datastore/JSONDataStore.java:186-189 | records after the first never affect the reported fields |
| `JsonDataStoreScenarios.MixedCaseFilterFindsNothing` | src/com/pingidentity/datastore/JSONDataStore.java:151 | filter "ALICE" against identifier "Alice" finds nothing: every requested name gets the not-found marker |
| `JsonDataStoreScenarios.ExactFilterFindsFirstRecord` | src/com/pingidentity/datastore/JSONDataStore.java:151-153 | filter "Alice" selects the first record and projects its role |
| `JsonDataStoreScenarios.UnknownFilterFloodsMarker` | src/com/pingidentity/datastore/JSONDataStore.java:163-170 | a filter no record carries maps every requested name to the not-found marker |
| `JsonDataStoreScenarios.MissingAttributeOfFoundRecord` | src/com/pingidentity/datastore/JSONDataStore.java:206-219 | a found record projects a held attribute as its value and a lacking one as `Absent` |
| `JsonDataStoreScenarios.CaseSettingIsIgnored` | src/com/pingidentity/datastore/JSONDataStore.java:100 | the same query answered with the case-sensitive and the case-insensitive setting gives the same result |

## Left out

- The constructor's configuration-screen descriptors and `getSourceDescriptor` (lines 66-92): host user-interface plumbing with no lookup logic.
- `configure` (lines 95-102): the file name, identifying attribute and case-sensitivity setting it stores are plain parameters of the operations.
- `testConnection` (lines 105-122): a file-system existence and readability check.
- `parseJSONFile` (lines 226-243): file I/O, the JSON parser library and the lock on the shared parser; its outcome is the `Source` input (`Unreadable` for the swallowed `IOException`, otherwise the parsed `"users"` array).
- Crash paths: a parse failure makes `parseJSONFile` return `null`, which is dereferenced at line 137; a missing `"users"` field (line 139) or a non-array `"users"` field (line 137) throws; a non-object element that the scan reaches throws at line 145 (a JSON `null` element at line 147), and for `getAvailableFields` only the first element is cast (line 187, dereferenced at line 189).
- Non-object elements the code never reaches: `Source` admits only object elements, so a document whose elements after the first match (or, for `getAvailableFields`, after the first element) are not objects is not modelled, although the store answers it normally, as it would with those elements removed.
- RetrieveValues: requires `ScanCastsSucceed`, excluding the inputs on which the cast at line 149 throws; such inputs crash the store rather than produce a result.
- JSON values other than strings and arrays of strings (numbers, booleans, nested objects, `null`) are outside the `Value` type; as a projected attribute a JSON `null` would be wrapped and the others would throw at line 213. The elements of an array are taken to be strings, which the unchecked cast at line 211 does not verify.
- StringOrder.LessEq: compares Dafny characters (Unicode scalar values) where Java compares UTF-16 code units; the two orders differ only between supplementary characters and characters from U+E000 to U+FFFF.
- KeyList: the iteration order of the record's key set is unspecified, so it is an arbitrary (ghost) choice and `AvailableFields` is a ghost function; `AvailableFieldsIgnoreKeyOrder` shows the choice does not affect the result.
- SortList: modelled as an insertion sort rather than the library's merge sort; `SortedPermutationIsUnique` shows any correct sort returns the same list.
- Logging, and the `AttributeValue` wrapper type, which `Value` replaces.
