# SolutionSection, modelled in Dafny

SharpDevelop's `SolutionSection` is one block of a solution file. It has a
section name and a section type, such as `preProject` or `postSolution`. It
holds an insertion-ordered list of string key/value pairs and raises a
`Changed` event after each mutation. This project models that class and
proves its rules:

- validation refuses null strings and strings containing newline, carriage
  return, NUL or `=`, before anything changes;
- `Add` appends even when the key is already present;
- `Remove` deletes every entry with the key and keeps the rest in order;
- the lookups (`ContainsKey`, `TryGetValue`, the indexer read) use the first
  entry with the key;
- the indexer write overwrites that first entry where it stands, or appends;
- `Changed` is raised a fixed number of times by each operation.

Layout:

- `Wrappers.dfy`: `Option` stands for a nullable .NET string. `Result` and
  `Outcome` stand for a call that may throw instead.
- `SectionSpec.dfy` (module `SectionSpec`) holds the value-level meaning.
  It defines the `Entry` pair, `IndexOfAny` and `Validate`, the first-match
  search, the remove-all filter and the `Keys`/`Values` projections. Lemmas
  connect them: lookups after add, after indexer write and after remove;
  order preservation; idempotence of remove; keys and values zip back to
  the entries.
- `SolutionSection.dfy` (module `Project`) holds class `SolutionSection`.
  The class has the fields `sectionName`, `sectionType` and
  `entries: seq<Entry>`, plus a ghost `changeCount` that stands for the
  `Changed` event: each raise adds one. `Valid()` says that every stored
  string passed validation. Every mutator keeps `Valid()` and states the
  whole new state. The lookups and the indexer write are `while` loops over
  `entries`, as in the source. Three client methods at the end
  (`AddScenario`, `SetItemScenario`, `RemoveScenario`) replay the class's
  documented usage from the contracts alone.

A thrown `ArgumentNullException` or `ArgumentException` becomes
`Fail(ArgumentNull(p))` or `Fail(InvalidCharacters(p))`. Here `p` is the
parameter name the exception reports. `Validate` reports its first argument
as `"key"` and its second as `"value"`. The name setter validates the new
name as the key, so a bad name reports `"key"`; the type setter validates the
new type as the value, so a bad type reports `"value"`. The model keeps this.

## Model

| member | source | states |
|---|---|---|
| `SectionSpec.IndexOfAny` | src/Main/Base/Project/Project/SolutionSection.cs:27-30 | the result is -1 exactly when no character of the string is in the set; otherwise it is the index of the first such character |
| `SectionSpec.ValidTextIff` | src/Main/Base/Project/Project/SolutionSection.cs:19-31 | a string passes the character check exactly when it holds none of `\n`, `\r`, `\0`, `=` |
| `SectionSpec.Validate` | src/Main/Base/Project/Project/SolutionSection.cs:21-31 | passes exactly when both strings are non-null and valid; otherwise reports null key, null value, bad key, bad value, the first that applies in that order, with the parameter name |
| `SectionSpec.ForbiddenCharRejected` | src/Main/Base/Project/Project/SolutionSection.cs:19-31 | a string with a forbidden character at any position fails validation whether it is passed as key or as value |
| `SectionSpec.FirstIndexOf` | src/Main/Base/Project/Project/SolutionSection.cs:103-132 | the result is an index whose entry has the key and no earlier entry has it; it is absent exactly when no entry has the key; a null key matches nothing |
| `SectionSpec.FirstIndexUnique` | src/Main/Base/Project/Project/SolutionSection.cs:124-132 | an index whose entry matches, with no match before it, is the first index, and the lookup returns its value |
| `SectionSpec.WithoutKey` | src/Main/Base/Project/Project/SolutionSection.cs:89 | keeps exactly the entries whose key differs; it is shorter exactly when some entry had the key, and otherwise equals the input |
| `SectionSpec.WithoutKeyAppend` | src/Main/Base/Project/Project/SolutionSection.cs:89 | removal distributes over concatenation, so the kept entries stay in their original relative order |
| `SectionSpec.WithoutKeyIdempotent` | src/Main/Base/Project/Project/SolutionSection.cs:87-95 | after a removal no entry has the key, so a second removal changes nothing |
| `SectionSpec.LookupWithoutKey` | src/Main/Base/Project/Project/SolutionSection.cs:87-95 | after removing a key, looking it up gives null; looking up any other key gives what it gave before |
| `SectionSpec.LookupAppend` | src/Main/Base/Project/Project/SolutionSection.cs:80-85 | after appending a pair, a key that was already present still reads its first value; only a key that was absent reads the appended value |
| `SectionSpec.LookupUpsert` | src/Main/Base/Project/Project/SolutionSection.cs:133-143 | after an indexer write the key reads back the written value, and every other key reads what it read before |
| `SectionSpec.KeysOf` | src/Main/Base/Project/Project/SolutionSection.cs:146-150 | one key per entry, at the same position, duplicates included |
| `SectionSpec.ValuesOf` | src/Main/Base/Project/Project/SolutionSection.cs:152-156 | one value per entry, at the same position, duplicates included |
| `SectionSpec.ZipKeysValues` | src/Main/Base/Project/Project/SolutionSection.cs:146-166 | pairing the keys view with the values view position by position gives back exactly the enumerated entries |
| `SectionSpec.HasKeyIffInKeys` | src/Main/Base/Project/Project/SolutionSection.cs:103-110 | a key is found by the scan exactly when it occurs in the keys view |
| `Project.SolutionSection.Init` | src/Main/Base/Project/Project/SolutionSection.cs:37-42 | given valid strings, the new section has that name and type, no entries and no notifications yet |
| `Project.SolutionSection.Create` | src/Main/Base/Project/Project/SolutionSection.cs:37-42 | fails exactly when validating the name (as key) and the type (as value) fails, with that error; otherwise a fresh, valid, empty section with the given name and type |
| `Project.SolutionSection.SetSectionName` | src/Main/Base/Project/Project/SolutionSection.cs:47-58 | assigning the current name changes nothing and raises nothing; otherwise the result is the validation of the new name with the current type; on success only the name changes and one notification is raised; on failure nothing changes |
| `Project.SolutionSection.SetSectionType` | src/Main/Base/Project/Project/SolutionSection.cs:63-74 | assigning the current type changes nothing and raises nothing; otherwise the result is the validation of the current name with the new type; on success only the type changes and one notification is raised; on failure nothing changes |
| `Project.SolutionSection.Count` | src/Main/Base/Project/Project/SolutionSection.cs:76-78 | the count equals the length of the keys view and of the values view |
| `Project.SolutionSection.Add` | src/Main/Base/Project/Project/SolutionSection.cs:80-85 | on valid input the pair is appended even if the key is present, with one notification; invalid input leaves the whole object unchanged |
| `Project.SolutionSection.Remove` | src/Main/Base/Project/Project/SolutionSection.cs:87-95 | returns true exactly when some entry had the key; the entries become the filtered list and none has the key; one notification on true; on false nothing changes |
| `Project.SolutionSection.Clear` | src/Main/Base/Project/Project/SolutionSection.cs:97-101 | no entries remain and one notification is raised, even when already empty; name and type unchanged |
| `Project.SolutionSection.ContainsKey` | src/Main/Base/Project/Project/SolutionSection.cs:103-110 | true exactly when the key is non-null and some entry has it |
| `Project.SolutionSection.TryGetValue` | src/Main/Base/Project/Project/SolutionSection.cs:112-122 | true exactly when some entry has the key; then the value is that of the first such entry; otherwise false with a null value |
| `Project.SolutionSection.GetItem` | src/Main/Base/Project/Project/SolutionSection.cs:124-132 | null exactly when no entry has the key; otherwise the value of the first entry with the key |
| `Project.SolutionSection.SetItem` | src/Main/Base/Project/Project/SolutionSection.cs:133-143 | the result is the validation of key and value; on success a present key's first entry is overwritten at its index with length and every other position unchanged, an absent key is appended as by Add, and one notification is raised; on failure nothing changes |

## Left out

- The `Changed` event's delegates, subscribers and the `EventArgs` it carries are not modelled. The ghost counter `changeCount` records only how many times the event is raised, not that it is raised after the state has changed.
- `IReadOnlyDictionary` conformance, the lazy LINQ `Select` behind `Keys` and `Values`, and the `IEnumerator` returned by `GetEnumerator` are not modelled. Enumeration is the `entries` sequence itself, and the two views are the projections `KeysOf` and `ValuesOf`.
- `List.RemoveAll` is a library call, so removal is the function `WithoutKey`, not an in-place loop. The removed count is the difference in lengths.
- The `SectionName` and `SectionType` getters read the fields `sectionName` and `sectionType` directly.
- Exception messages such as "key contains invalid characters" are not modelled. Only the exception kind and the parameter name are kept.
- String equality is .NET ordinal equality, modelled as equality of `seq<char>`. A .NET `char` is a UTF-16 code unit; Dafny's `char` is used as is.
- src/Main/Base/Project/Project/ProjectInformation.cs is not part of this model. It is a parameter object whose only logic is null checks and the ("Debug", "AnyCPU") fallback. That fallback depends on the solution's active configuration, the configuration mapping, file-name helpers, `DummyProgressMonitor`, `TargetFramework` and `Guid.NewGuid()`, none of which are part of this model.
- The indexer write raises `Changed` even when it stores the value that was already there, as the code does. A reading of "notify once per effective change" would skip that notification; the model follows the code.
