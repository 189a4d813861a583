# easy-config entry resolution, in Dafny

This project models the in-memory core of easy-config and proves properties
of it. easy-config reads YAML sources whose keys are compact descriptors
such as `module.feature.name:Type@env`. It builds one *entry* per descriptor
and writes every entry's parameters for a target environment through a
post-processor.

The model covers:

- **Descriptors** (`Descriptors`, descriptor.dfy). The two anchored grammars
  of `Entry` are written as character-level parsers: the entry grammar
  `name:Type@env` and the parameter grammar `param@env`. A subject that does
  not match gives the explicit outcome `NoMatch`, where the source returns an
  empty object.
- **Entry** (`EntryModel`, entry.dfy).
  - The constructor splits the name into module, feature and name and opens
    the layer of the descriptor's env.
  - `withParam` stores each parameter in its layer, turns `:`-prefixed
    parameters into tags, and refuses a parameter whose env conflicts with the
    entry's.
  - The constructor then sets the `fullname` tag.
  - `params(env)` resolves the fallback chain `""`, base env, exact env.
  - `write` merges the `:Default` and `:Type` pseudo-entries under the entry's
    own parameters and produces one post-processor call.
  - The pure parts are functions (`Construct`, `WithParamStep`, `Fullname`,
    `ResolveParams`, `WriteEntry`). The field updates are methods of class
    `Entry`, proved against those functions.
- **Entries** (`EntriesModel`, entries.dfy). This is the registry, an ordered
  collection keyed by fullname.
  - `offsetSet` builds an entry and stores it under its fullname. When that
    fullname is already stored, the new entry's params are merged into the old
    ones with `array_merge_recursive`.
  - `checkFilter` is the tag filter.
  - `write` is the ordered bulk write.
  - `read` is modelled from the point where the sources are already parsed:
    drop `_public_key`, merge recursively, insert every key, set the filter.
  - Class `Entries` holds the storage (a sequence of fullname and `Entry`
    object pairs) and the filter. Its methods are proved against the pure
    registry functions (`Insert`, `WriteAll`, `ReadRegistry`).
- **Env** (`EnvModel`, env.dfy). An env specifier is split at its first `-`
  and joined back.

Supporting modules:

- `PhpValues`: PHP values and ordered arrays with string or int keys,
  `empty()`, `isset`, the `(array)` cast, `[] =` (push), string conversion.
- `Assoc`: ordered association sequences.
- `ArrayMerge`: `array_merge`, `array_merge_recursive` and the array union `+`.
- `PhpStrings`: `explode`, `implode`, `str_contains`, `str_starts_with`,
  `ltrim`.
- `ParamLayers`: the two-level params array `env -> (param -> value)`, and
  its recursive merge.

The code and the doc comment disagree about the env check. The doc comment
at src/Entry.php:92 says the entry's env must match or be a superset of the
parameter's. The check at src/Entry.php:99 requires the **parameter's** env
to contain the **entry's** env as a substring, so a parameter `x@prod` inside
an entry `a:T@prod-1` is refused. The model follows the code: see
`EnvCompatibleWhenContained` and `ShorterParamEnvConflicts`.

Other behaviours of the code that the model keeps:

- `Env` always prints a `-`, so `prod` prints as `prod-`.
- Colliding scalar parameters of two declarations of one entry become the
  list `[old, new]`, not the newer value.
- Colliding lists, in parameters or in the top-level keys of two files, are
  concatenated, older first, not replaced: `[1, 2]` then `[3]` gives
  `[1, 2, 3]` (`CombineLists`).
- An entry descriptor the grammar rejects still builds an entry when it has
  no parameters: a null type, an empty name and the env `""`. With
  parameters it fails (`UnparsedEntryWithParams`), because `withParam`
  receives a null env where a string is required.

## Model

| member | source | states |
|---|---|---|
| Descriptors.ParseEntrySound | src/Entry.php:7 | A subject the entry grammar accepts is the canonical text of well-formed groups: name without `:`, non-empty type without `@`, env without a line feed. The only extra allowed is one final line feed after a non-empty env, which `$` admits. |
| Descriptors.ParseEntry | src/Entry.php:7 | Defines the entry grammar as a parser: the name up to the first `:`, the type up to the first `@`, then a non-empty env free of line feeds (one final line feed allowed). Its meaning is stated by `ParseEntrySound`, `ParseEntryComplete` and `ParseEntryMismatches`. |
| Descriptors.ParseEntryComplete | src/Entry.php:7 | The canonical text of any well-formed groups parses back to exactly those groups, with env `""` when `@env` is absent. When it ends in an env, that text followed by one final line feed parses back to the same groups. |
| Descriptors.ParseEntryMismatches | src/Entry.php:139-143 | A subject without `:`, with an empty type (`name:` and `name:@env`), or with `@` and no env (`name:T@`) gives `NoMatch`, with no fields and no error. |
| Descriptors.ParseParamSound | src/Entry.php:8 | A subject the parameter grammar accepts is the canonical text of a non-empty name without `@` and an env without a line feed, possibly followed by one final line feed after a non-empty env. |
| Descriptors.ParseParam | src/Entry.php:8 | Defines the parameter grammar as a parser: a non-empty name up to the first `@`, then a non-empty env free of line feeds. Its meaning is stated by `ParseParamSound`, `ParseParamComplete` and `ParseParamMismatches`. |
| Descriptors.ParseParamComplete | src/Entry.php:8 | The canonical text of any well-formed parameter groups parses back to those groups. When it ends in an env, that text followed by one final line feed parses back to the same groups. |
| Descriptors.ParseParamMismatches | src/Entry.php:139-143 | `@env` with an empty name and `name@` with an empty env give `NoMatch`. |
| PhpStrings.Explode | src/Entry.php:26 | `explode` with a limit gives between 1 and `limit` pieces. Only the last piece may hold the separator, and only when the limit is reached. Joining the pieces gives the subject back. |
| PhpStrings.ExplodeImplode | src/Env.php:11-18 | `explode` undoes `implode` for pieces free of the separator. |
| PhpStrings.ContainsIffOccurs | src/Entry.php:99 | `str_contains` holds exactly when the needle occurs at some position of the haystack. |
| EnvModel.FromSpec | src/Env.php:10-14 | `base` never contains `-` and is a prefix of the specifier. With a `-`, base, `-` and suffix give the specifier back. Without one, base is the whole specifier and suffix is `""`. |
| EnvModel.ToString | src/Env.php:16-19 | Defines `__toString`: base, `-`, suffix. `ToStringFromSpec` and `FromSpecToString` state what it gives back. |
| EnvModel.ToStringFromSpec | src/Env.php:16-19 | Printing an Env built from a specifier gives the specifier when it has a `-`, and the specifier plus a trailing `-` otherwise. |
| EnvModel.FromSpecToString | src/Env.php:10-19 | An Env whose base has no `-` is rebuilt exactly from its printed form. |
| EnvModel.Examples | src/Env.php:10-19 | `prod-eu-2` gives base `prod` and suffix `eu-2`; `prod` gives suffix `""` and prints as `prod-`. |
| EntryModel.SplitName | src/Entry.php:26-31 | The module, feature and name segments join with `.` back to the descriptor name, and there is no feature without a module. |
| EntryModel.SplitNameOne | src/Entry.php:26-31 | A name without a dot gives a name only, with null module and feature. |
| EntryModel.SplitNameTwo | src/Entry.php:26-31 | `a.b` gives module `a`, null feature and name `b`. |
| EntryModel.SplitNameThree | src/Entry.php:26-31 | `a.b.c` gives module `a`, feature `b` and name `c`, and any further dots stay in the name. |
| EntryModel.InitialTagsInOrder | src/Entry.php:28-35 | The four tag assignments give the tags in the order type, module, feature, name. |
| EntryModel.InitialWellFormed | src/Entry.php:37-39 | The initial fields are well-formed and hold the layer of the descriptor's env. |
| EntryModel.Entry.NamedTags | src/Entry.php:26-35 | The tags set from the type and the split name are exactly type, module, feature and name, in that order. |
| EntryModel.Entry.constructor | src/Entry.php:25-39 | The new object's fields are the initial fields: tags from the parsed descriptor and one empty layer for its env. |
| EntryModel.WithParamStep | src/Entry.php:96-115 | Refuses a parameter exactly when both envs are non-empty and the parameter's does not contain the entry's, with an env-conflict error. A `:`-prefixed name sets the tag named by the name without leading colons and nothing else. Any other name sets that parameter in layer `paramEnv ?: entryEnv` and leaves the tags, the other parameters of that layer and every other layer alone. No layer disappears, and well-formedness is kept. |
| EntryModel.Entry.WithParam | src/Entry.php:96-115 | The method's new fields, or its error with unchanged fields, are those `WithParamStep` gives. |
| EntryModel.EnvCompatibleWhenContained | src/Entry.php:99 | A parameter env that contains the entry's env passes the check. |
| EntryModel.ShorterParamEnvConflicts | src/Entry.php:99-107 | A non-empty parameter env shorter than a non-empty entry env is refused, e.g. `x@prod` in an entry for `prod-1`. |
| EntryModel.ApplyParams | src/Entry.php:40-42 | The parameter loop keeps every layer it started with and keeps the fields well-formed. `ApplyParamsFails`, `ApplyParamsLastTag` and `ApplyParamsLastParam` state when it fails and what it stores. |
| EntryModel.ApplyParamsFails | src/Entry.php:99-108 | The loop fails exactly when some parameter's env conflicts with the entry's. It then fails with the conflict of the first such parameter, and no earlier parameter conflicts. |
| EntryModel.ApplyParamsLastTag | src/Entry.php:110-111 | After a successful loop, a tag holds the value of the last `:`-prefixed parameter that sets it. |
| EntryModel.ApplyParamsLastParam | src/Entry.php:112-113 | After a successful loop, a parameter's layer holds, under its name, the value of the last parameter stored under that layer and name. |
| EntryModel.ApplyParamsKeepsTags | src/Entry.php:110-114 | When no parameter name starts with `:`, the parameter loop leaves the tags unchanged. |
| EntryModel.ConstructFacts | src/Entry.php:23-45 | A built entry is well-formed, holds the layer of its own env, and its `fullname` tag equals the fullname of its final tags, so a `:fullname` parameter is overwritten. A rejected descriptor fails exactly when it comes with parameters. |
| EntryModel.Construct | src/Entry.php:23-45 | Defines `new Entry(...)` on values: parse, initial tags and layer, every parameter in order (the first refused one fails), then the fullname tag. `ConstructFacts`, `ConstructConflicts`, `ConstructLastTag`, `ConstructLastParam`, `ConstructFullname`, `PseudoEntryFullname` and `TagsIgnoreEnv` state its properties, and `Entry.Create` is proved equal to it. |
| EntryModel.ConstructConflicts | src/Entry.php:40-42 | For a descriptor the grammar accepts, construction fails exactly when some parameter's env conflicts with the entry's. It then fails with the conflict of the first such parameter. |
| EntryModel.ConstructLastTag | src/Entry.php:40-44 | In a constructed entry, a tag other than `fullname` holds the value of the last `:`-prefixed parameter that sets it. So `:type`, `:module`, `:feature` and `:name` overrides are what the fullname, computed afterwards, reads. |
| EntryModel.ConstructLastParam | src/Entry.php:40-42 | In a constructed entry, a parameter's layer holds, under its name, the value of the last parameter stored under that layer and name. |
| EntryModel.WithFullnameFacts | src/Entry.php:44 | Setting the fullname tag leaves the params alone, keeps well-formedness, and the tag agrees with the fullname of the new tags. |
| EntryModel.Entry.SetFullname | src/Entry.php:44 | The method's new fields are the old ones with the `fullname` tag set to the entry's fullname. |
| EntryModel.Entry.Create | src/Entry.php:23-45 | `new Entry(...)` fails with the error of the pure construction, or gives a fresh object whose fields are the constructed ones. |
| EntryModel.FullnameIgnoresFullnameTag | src/Entry.php:47-53 | The fullname does not depend on the `fullname` tag itself. |
| EntryModel.Fullname | src/Entry.php:47-53 | Defines `fullname()`: the truthy module, feature and name joined by `.`, then `:` and the type. `FullnameDropsFalsy`, `FullnameOfName`, `FullnameDropsEmptySegment`, `FullnameIgnoresFullnameTag` and `PseudoEntryFullname` state its properties. |
| EntryModel.FullnameDropsFalsy | src/Entry.php:47-53 | For any descriptor, the fullname of the initial tags is the name's segments with the falsy ones (empty or `"0"`) dropped, joined by `.`, then `:` and the type. The env is not part of it. |
| EntryModel.FullnameOfName | src/Entry.php:47-53 | For a name none of whose segments is falsy (empty or `"0"`), the fullname of the initial tags is the descriptor name, `:`, then the type. The env is not part of it. |
| EntryModel.FullnameDropsEmptySegment | src/Entry.php:47-53 | An empty middle segment is dropped: for non-falsy `a` (without a dot) and `b`, the descriptor `a..b:T` has the fullname `a.b:T`. |
| EntryModel.ConstructFullname | src/Entry.php:40-53 | An entry built from `name:Type@env` whose name has no falsy segment (empty or `"0"`), with no `:`-prefixed parameter, has the fullname tag `name:Type`. |
| EntryModel.PseudoEntryFullname | src/Entry.php:40-53 | The pseudo-entry descriptor `:T`, with any parameters that are not `:`-prefixed, always builds (it has no env to conflict with), and its fullname is `:T`. |
| EntryModel.ApplyParamsWithoutEnv | src/Entry.php:99 | With an empty entry env no parameter is refused, so the parameter loop always succeeds. |
| EntryModel.ConstructTags | src/Entry.php:40-53 | An entry built with no `:`-prefixed parameter has the fullname of its initial tags, whatever its env and parameters. |
| EntryModel.TagsIgnoreEnv | src/Entry.php:25-44 | Two descriptors differing only in env, with the same parameters, build entries with the same tags. |
| EntryModel.BaseLayerKey | src/Entry.php:122 | The base-layer key is the `base` of the Env built from the same string and never contains `-`. |
| EntryModel.ResolveParams | src/Entry.php:120-134 | `params(env)` is null exactly when none of the layers `""`, base env and env exists. Otherwise its keys are distinct. |
| EntryModel.ResolveLookup | src/Entry.php:129-133 | Each parameter comes from the exact-env layer if it has it, else from the base-env layer, else from the `""` layer. |
| EntryModel.ConstructDefinedFor | src/Entry.php:37-39 | A built entry declared without env, or for the target env or its base, is defined for that target. |
| EntryModel.WriteEntryOutcome | src/Entry.php:55-78 | `write` skips an entry exactly when its name is empty or it is undefined for the env. It fails exactly when it is not skipped and the `:Default` or `:Type` pseudo-entry exists but is undefined for the env. Otherwise it makes one call carrying the entry's type. |
| EntryModel.WriteEntry | src/Entry.php:55-88 | Defines `write` for one entry: skipped, failed on an undefined pseudo-entry, or one call with the merged params and the diagnostic keys. `WriteEntryOutcome`, `WriteContext` and `DiagnosticsKeys` state its properties. |
| EntryModel.WriteContext | src/Entry.php:67-87 | Each key of the call's context comes from the entry's own params if it has it, else the type defaults, else the defaults. Only when none has it does it come from the diagnostic keys. |
| EntryModel.DiagnosticsKeys | src/Entry.php:80-87 | The diagnostic array holds exactly `tags`, `env` (an Env of the target), `params` (the merged params), `own`, `:Type` and `:Default`, with their values. |
| ParamLayers.SetParam | src/Entry.php:113 | Setting a parameter creates its layer when missing, sets the value and changes no other layer or parameter. |
| ParamLayers.EmbedMergeLayers | src/Entries.php:73 | Merging params layer by layer equals `array_merge_recursive` on the two-level arrays they stand for. |
| ParamLayers.MergeLayersGet | src/Entries.php:72-73 | An env only one side declares keeps its layer. An env both declare gets the newer layer merged recursively into the older one. |
| ParamLayers.MergeLayersWellFormed | src/Entries.php:73 | The merge of well-formed params is well-formed. |
| ArrayMerge.Merge3Get | src/Entry.php:78 | `array_merge(a, b, c)` has distinct keys, and a string key reads from `c` if it has it, else `b`, else `a`. |
| ArrayMerge.UnionGet | src/Entry.php:80-87 | In `a + b` every key reads from `a` when `a` has it, and from `b` otherwise. |
| ArrayMerge.MergeRecursiveGet | src/Entries.php:73 | `array_merge_recursive(a, b)` has distinct keys. A string key only one side has keeps its value, and a key both have gets the two values combined, the older first. |
| ArrayMerge.MergeRecursive | src/Entries.php:73 | Defines `array_merge_recursive(a, b)`: the pairs of `b` folded into `a`, integer keys renumbered and appended, colliding string keys combined. `MergeRecursiveGet`, `CombineScalars`, `CombineArrays` and `CombineLists` state its properties. |
| ArrayMerge.CombineScalars | src/Entries.php:73 | Two colliding non-array values become the list `[old, new]`. |
| ArrayMerge.CombineArrays | src/Entries.php:73 | When two arrays collide, each string key of the result holds the value of the side that has it. A string key both sides have holds the two values combined, recursively. |
| ArrayMerge.CombineLists | src/Entries.php:73 | Two colliding lists are concatenated, not replaced: the older array's pairs come first, then the newer list's values in order. So `[1, 2]` and `[3]` give `[1, 2, 3]`. |
| EntriesModel.EmptyFilterAdmits | src/Entries.php:91-110 | An empty filter admits every entry. |
| EntriesModel.NullTagNeverMatches | src/Entries.php:96 | A string-keyed filter on a tag that is null or unset rejects the entry. |
| EntriesModel.Admits | src/Entries.php:91-110 | Defines the filter: every string-keyed pair names a set tag strictly equal to it, and every int-keyed value is strictly equal to some tag value. `Entries.CheckFilter` is proved equal to it. `EmptyFilterAdmits` and `NullTagNeverMatches` state its edge cases. |
| EntriesModel.InArray | src/Entries.php:104 | `in_array(v, a, true)` holds exactly when some value of `a` equals `v` strictly. |
| EntriesModel.Entries.CheckFilter | src/Entries.php:91-110 | The two early-return loops admit an entry exactly when every string-keyed filter pair names a set tag strictly equal to it, and every int-keyed filter value is among the tag values. |
| EntriesModel.InsertPlaces | src/Entries.php:65-77 | An insert fails exactly when building the entry fails. Otherwise the entry is stored under its fullname, not the raw key, with its own tags, and every other fullname reads as before. An existing fullname keeps its position and the registry's length; a new one is appended. |
| EntriesModel.Insert | src/Entries.php:65-77 | Defines `offsetSet` on values: build the entry from the key and `(array) $value`, merge the params of the entry stored under its fullname, store it there. `InsertPlaces`, `InsertMergesParams`, `InsertWellFormed` and `SameSlotAcrossEnvs` state its properties, and `Entries.OffsetSet` is proved equal to it. |
| EntriesModel.StoredPlaces | src/Entries.php:72-76 | Where an entry lands in the registry and what happens to the other slots, from the entry's fields. |
| EntriesModel.InsertWellFormed | src/Entries.php:65-77 | Inserting keeps every entry stored once, under its own fullname, and well-formed. |
| EntriesModel.StoredWellFormed | src/Entries.php:72-76 | Storing well-formed fields under their fullname, merged with the entry they replace, keeps the registry well-formed. |
| EntriesModel.InsertMergesParams | src/Entries.php:72-73 | On a collision, each parameter of each env that only one declaration has keeps its value. One both have holds the two values combined, the old first. |
| EntriesModel.CollidingScalarsBecomeList | src/Entries.php:73 | Two scalar values of one parameter merge into the list `[old, new]`. |
| EntriesModel.SameSlotAcrossEnvs | src/Entries.php:65-76 | Inserting `a:T` and then `a:T@env`, each with any parameters that are not `:`-prefixed (e.g. `{x: 1}` and `{x: 2}`), adds no key the second time and keeps the first insert's slot. |
| EntriesModel.Entries.OffsetSet | src/Entries.php:65-77 | The method fails with the error of the pure insert, leaving the storage and the registry alone. Otherwise its new registry is the pure insert's result. The filter never changes, and a well-formed collection stays well-formed. |
| EntriesModel.Entries.Adopt | src/Entries.php:72-76 | Storing a new entry object gives the registry with its fields, merged with those it replaces, under its fullname. |
| EntriesModel.Entries.MergeParams | src/Entries.php:72-73 | A new entry whose fullname is stored gets the stored params merged recursively with its own. |
| EntriesModel.Entries.Store | src/Entries.php:76 | Storing an entry object under a name puts its fields under that name. |
| EntriesModel.OutcomesAt | src/Entries.php:82-88 | The loop's `j`-th outcome is what writing the `j`-th entry gives. |
| EntriesModel.WalkSound | src/Entries.php:82-88 | Every call the loop makes is the call of some entry, and there are no more calls than entries. |
| EntriesModel.WalkComplete | src/Entries.php:82-88 | A loop that ends without error makes the call of every entry that writes. |
| EntriesModel.WalkStops | src/Entries.php:82-88 | The loop ends with an error exactly when some entry fails, and then with the error of the first failing entry. |
| EntriesModel.FirstFailure | src/Entries.php:82-88 | The position of the first failing outcome from a given one on, or the end: no outcome before it fails, and the one there does. |
| EntriesModel.WalkInOrder | src/Entries.php:82-88 | The loop makes, in order and one per outcome, the calls of the outcomes before the first failing one, and reports that outcome's error, or none when nothing fails. |
| EntriesModel.WriteAllCalls | src/Entries.php:79-89 | When no entry fails, a call is made exactly when it is the call of some entry the filter admits and that writes. |
| EntriesModel.WriteAll | src/Entries.php:79-89 | Defines `write` on values: walk the entries in collection order, skip those the filter rejects, collect the calls and stop at the first failure. `WriteAllInOrder`, `WriteAllCalls` and `WriteAllFails` state its properties, and `Entries.Write` is proved equal to it. |
| EntriesModel.WriteAllInOrder | src/Entries.php:79-89 | The calls `write` makes are, in collection order and one per entry, those of the admitted entries that write, up to the first admitted entry that fails. |
| EntriesModel.WriteAllFails | src/Entries.php:79-89 | `write` fails exactly when some admitted entry fails, and then with the error of the first such entry. |
| EntriesModel.Entries.WriteAt | src/Entries.php:83-87 | One iteration checks the filter and gives the entry's outcome, or nothing when it is rejected. |
| EntriesModel.Entries.Write | src/Entries.php:79-89 | The method's calls and error are those of the ordered walk over the stored entries. |
| EntriesModel.CollectDropsPublicKey | src/Entries.php:32-48 | No collected document keeps a `_public_key`. |
| EntriesModel.Collect | src/Entries.php:32-48 | Defines the file loop after parsing: each document cast to an array, without `_public_key`, stored under its file name. `CollectDropsPublicKey` states its property, and `Entries.CollectSources` is proved equal to it. |
| EntriesModel.Entries.CollectSources | src/Entries.php:32-48 | The file loop gives each document, cast to an array and without `_public_key`, under its file name. |
| EntriesModel.MergeAllSingleSource | src/Entries.php:49 | A key only one document has keeps that document's value in the merged documents. |
| EntriesModel.MergeAllLacks | src/Entries.php:49 | A key no document has is absent from the merged documents. |
| EntriesModel.MergeAllStep | src/Entries.php:49 | Merging one more well-formed document keeps the result well-formed. A key the earlier documents lack takes the new document's value, a key the new document lacks keeps its value, and a key both have holds the two values combined, the earlier first. |
| EntriesModel.MergeAllPair | src/Entries.php:49 | Two documents merge exactly as `array_merge_recursive(a, b)`. |
| EntriesModel.SharedScalarBecomesList | src/Entries.php:49 | A key two files both set to a scalar is not overwritten by the later file. It becomes the list of both values, the earlier file's first. |
| EntriesModel.MergeAll | src/Entries.php:49 | Defines `array_merge_recursive(...$documents)`: the documents folded, in order, into an empty array. `MergeAllStep`, `MergeAllPair`, `SharedScalarBecomesList`, `MergeAllSingleSource` and `MergeAllLacks` state its properties. |
| EntriesModel.InsertAllWellFormed | src/Entries.php:51-55 | The insert loop keeps the registry well-formed. |
| EntriesModel.Entries.constructor | src/Entries.php:51 | A new collection is empty, with an empty filter. |
| EntriesModel.Entries.InsertEach | src/Entries.php:51-55 | The insert loop on a new collection fails with the first insert's error, or gives a fresh, well-formed collection whose registry is the pure fold of the inserts. |
| EntriesModel.Entries.SetFilter | src/Entries.php:56 | Setting the filter changes nothing else and keeps the collection well-formed. |
| EntriesModel.Entries.Read | src/Entries.php:24-59 | `read` on parsed sources fails with the first insert's error, or gives a fresh, well-formed collection holding the registry built from the merged sources and the given filter. |

## Left out

- Reading sources is left out: globbing, `php://stdin`, `file_get_contents`, the `ejson`/`eyaml` decryption through `shell_exec`, the preprocessor callback and `yaml_parse` with its `!map` callback. `Entries.Read` takes the already-parsed documents as values.
- The YAML parse error of src/Entries.php:44-46 is not modelled, since parsing is outside the model.
- src/Writer.php and src/App.php are not part of this model.
- PCRE is not modelled. The grammars of src/Entry.php:7-8 are written as the parsers `ParseEntry` and `ParseParam`, and their soundness and completeness are proved.
- Exception messages are not modelled. Errors are datatype values (`EnvConflict`, `UnparsedEntryWithParams`, `UndefinedPseudoEntry`). The message at src/Entry.php:100-106 reads a `fullname` tag that is not set yet during construction; that is not modelled either.
- PHP's numeric-string key coercion is not modelled. Env and parameter names are string keys even when they look like integers.
- `offsetSet` with a value that is already an `Entry` object is not modelled, since `read` never stores one.
- The post-processor is not called. `write` returns the sequence of calls it would make, each a type and a context array.
- The back-reference from an entry to its registry is not a field. `WriteEntry` takes the registry as a value.
- A `:Type` or `:Default` pseudo-entry that exists but is undefined for the target env makes `array_merge` at src/Entry.php:78 fail in PHP. The model makes this an explicit failure, `UndefinedPseudoEntry`.
- The env objects passed in the diagnostic keys are values (`EnvObject`), not objects with identity.
- EntriesModel.Entries.Adopt and MergeParams require that the entry object is not yet stored, which always holds for an entry `offsetSet` has just built. `Store` has no such requirement. Aliasing of one entry object under two names is not modelled.
- Floats and stdClass objects are not values of the model. YAML floats would be scalars like integers (merged by `array_merge_recursive` as scalars, so colliding ones become a list). A YAML `!map` mapping becomes a stdClass object through the callback at src/Entries.php:41; the model represents every mapping as an array. For a colliding key, PHP's `array_merge_recursive` casts an object on either side to its property array first. So colliding mappings merge as the model merges arrays, but a non-colliding `!map` value stays an object in the params and reaches the post-processor as one. The model does not capture that difference.
