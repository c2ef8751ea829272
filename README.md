# Per-protocol item dictionaries

A Dafny model of `GlobalItemTypeDictionary`, the part of the server that keeps one item
dictionary per supported client protocol revision. The model covers four things:

- how each dictionary is loaded. Each protocol has a path suffix. The suffix is spliced into the
  base item-list file name. The decoded table is validated row by row, and one
  `ItemTypeEntry(name, runtime id, component based)` is built per row, in table order. Any bad
  table aborts the whole construction.
- which dictionary a client's protocol number uses (`getDictionaryProtocol`). 1.19.60 uses the
  1.19.63 table. Protocols from 1.19.10 up to but not including 1.19.40 use the 1.19.40 table.
  Every other protocol uses its own number.
- how players are grouped by that dictionary protocol (`sortByProtocol`).
- the lookup `getDictionary`. It falls back to the current protocol's dictionary.

Files and modules:

- `php_array.dfy`, module `PhpArray`: PHP's ordered arrays as key/value sequences. A read finds
  the pair for a key. An assignment overwrites that pair in place, or appends a pair when the key
  is new. A literal is a left-to-right series of assignments.
- `php_string.dfy`, module `PhpString`: `str_replace` with one search string.
- `json_value.dfy`, module `JsonValue`: the value `json_decode($data, true)` yields, and
  `isset` on a field.
- `protocol_info.dfy`, module `ProtocolInfo`: the protocol constants as a record of symbolic
  integers. `Ordered` states the ordering the lemmas assume:
  1.18.10 < 1.18.30 < 1.19.0 < 1.19.10 < 1.19.40 < 1.19.50 < 1.19.60 < 1.19.63 < 1.19.70 < 1.19.80 < 1.20.0 < current.
- `item_types.dfy`, module `ItemTypes`: `ItemTypeEntry` and `ItemTypeDictionary`.
- `global_item_type_dictionary.dfy`, module `Convert`: the class itself.

`make` and `sortByProtocol` are loops in the source, so here they are methods with loop
invariants. The loop of `make` is `LoadDictionaries`, written over any path table; `Make` runs it
on `PATHS`. Each is proved against specification functions:

- `ValidTable`/`TableEntries` for one table, and `BuiltFrom` for the whole registry;
- `FirstAppearances`/`Members` for the grouping.

`getDictionaryProtocol` and `getDictionary` are functions. The object is only ever built once
and never changed afterwards, so it is the datatype `GlobalItemTypeDictionary`. Its constructor
field `dictionaries` is also what `getDictionaries` returns.

Notes on what the code does:

- the JSON fields are named `runtime_id` and `component_based`;
- the top-level check is `is_array`, so a JSON list is accepted as well as an object. An empty
  list or an empty object is a valid empty table. A non-empty list fails on its integer keys;
- a row name that is a decimal integer string (`"12"`) becomes an int key when decoded, so
  `is_string` rejects that row;
- a field that is present but `null` counts as missing, because `isset` is false for null;
- no duplicate-name check happens in this file.

## Model

| member | source | states |
|---|---|---|
| `Convert.Paths` | src/network/mcpe/convert/GlobalItemTypeDictionary.php:44-55 | the `PATHS` array, read as PHP reads a literal: it never repeats a key, and its keys are exactly the declared protocol constants |
| `Convert.PathsDeclared` | src/network/mcpe/convert/GlobalItemTypeDictionary.php:44-55 | with distinct protocol numbers, the path table has exactly the ten declared protocols in declaration order, and the current protocol has the empty suffix |
| `Convert.CurrentHasPath` | src/network/mcpe/convert/GlobalItemTypeDictionary.php:44-45 | whatever the constants' values, the current protocol is a key of the path table |
| `PhpArray.FromDistinctLiteral` | src/network/mcpe/convert/GlobalItemTypeDictionary.php:44-55 | an array literal whose keys are all different denotes exactly its own pairs, in order |
| `PhpString.ReplaceAll` | src/network/mcpe/convert/GlobalItemTypeDictionary.php:61 | `str_replace` scanning left to right over non-overlapping matches; a replacement as long as the search string keeps the length |
| `PhpString.ReplaceAbsent` | src/network/mcpe/convert/GlobalItemTypeDictionary.php:61 | a string in which the search string does not occur is returned unchanged |
| `PhpString.ReplaceExtension` | src/network/mcpe/convert/GlobalItemTypeDictionary.php:61 | when ".json" does not occur in the stem, `str_replace` of ".json" in `stem.json` replaces only the final extension |
| `Convert.TablePath` | src/network/mcpe/convert/GlobalItemTypeDictionary.php:61 | a protocol's table file name; a base name without ".json" is used unchanged for every suffix |
| `Convert.TablePathSplice` | src/network/mcpe/convert/GlobalItemTypeDictionary.php:61 | the table file of a protocol is the base name with its suffix inserted before ".json" |
| `Convert.CurrentTablePath` | src/network/mcpe/convert/GlobalItemTypeDictionary.php:61 | the empty suffix reads the base file unchanged, for any base name |
| `Convert.ReadItemList` | src/network/mcpe/convert/GlobalItemTypeDictionary.php:63-73 | the table is accepted exactly when it is an array all of whose rows pass the row test; on success the result is one entry per row, in table order |
| `Convert.EntriesCopyRows` | src/network/mcpe/convert/GlobalItemTypeDictionary.php:72 | each entry copies its row's name, `runtime_id` and `component_based` unchanged, and there are as many entries as rows |
| `Convert.BadRowRejected` | src/network/mcpe/convert/GlobalItemTypeDictionary.php:69-70 | a row that is not an array, has a non-string key, a missing or null field, a non-bool `component_based` or a non-int `runtime_id` makes the table invalid |
| `Convert.LoadDictionaries` | src/network/mcpe/convert/GlobalItemTypeDictionary.php:60-76 | over any path table, loading succeeds exactly when every table is valid; then it holds one dictionary per path-table key, in path-table order, each built from the file named by that key's suffix |
| `Convert.Make` | src/network/mcpe/convert/GlobalItemTypeDictionary.php:57-79 | the same for the `PATHS` table: construction succeeds exactly when every declared protocol's table is valid, and then holds exactly those protocols' dictionaries |
| `Convert.DictionaryProtocol` | src/network/mcpe/convert/GlobalItemTypeDictionary.php:86-96 | the protocol whose table a client uses: its own, or 1.19.63, or 1.19.40; it differs from the client's own only when the client is 1.19.60 or lies in [1.19.10, 1.19.40) |
| `Convert.OverrideFirst` | src/network/mcpe/convert/GlobalItemTypeDictionary.php:87-89 | 1.19.60 resolves to 1.19.63, whatever the range rule would say |
| `Convert.RangeRule` | src/network/mcpe/convert/GlobalItemTypeDictionary.php:91-93 | every protocol in the half-open range [1.19.10, 1.19.40), other than 1.19.60, resolves to 1.19.40 |
| `Convert.IdentityRule` | src/network/mcpe/convert/GlobalItemTypeDictionary.php:95 | every other protocol resolves to itself |
| `Convert.Idempotent` | src/network/mcpe/convert/GlobalItemTypeDictionary.php:86-96 | when neither target is 1.19.60 and 1.19.63 lies outside the range, resolving twice equals resolving once |
| `Convert.SharesTable1_19_40` | src/network/mcpe/convert/GlobalItemTypeDictionary.php:91-95 | under the ordering, a protocol resolves to 1.19.40 if and only if it lies in [1.19.10, 1.19.40] |
| `Convert.SharesTable1_19_63` | src/network/mcpe/convert/GlobalItemTypeDictionary.php:87-95 | under the ordering, a protocol resolves to 1.19.63 if and only if it is 1.19.60 or 1.19.63 |
| `Convert.DeclaredUseOwnTable` | src/network/mcpe/convert/GlobalItemTypeDictionary.php:86-96 | under the ordering, every protocol of the path table resolves to itself |
| `Convert.AliasesHaveTable` | src/network/mcpe/convert/GlobalItemTypeDictionary.php:86-96 | under the ordering, a protocol the rules redirect is redirected to one that has a table |
| `Convert.FirstAppearances` | src/network/mcpe/convert/GlobalItemTypeDictionary.php:109-113 | the group keys have no repeats, and a key is present exactly when some player resolves to it |
| `Convert.MemberPositions` | src/network/mcpe/convert/GlobalItemTypeDictionary.php:106-114 | the members of a group sit at strictly increasing input positions, so input order is kept within a group |
| `Convert.MemberPositionsExact` | src/network/mcpe/convert/GlobalItemTypeDictionary.php:106-114 | those positions are exactly the positions of the players resolving to the group's key |
| `Convert.SortByProtocol` | src/network/mcpe/convert/GlobalItemTypeDictionary.php:103-117 | the keys are the distinct resolved protocols in first-appearance order; each group is the players of its key in input order; together the groups hold exactly the input players, so their sizes sum to the input length |
| `Convert.GroupedExtend` | src/network/mcpe/convert/GlobalItemTypeDictionary.php:109-110 | appending a player to the existing group of its key keeps the grouping exact for the longer input |
| `Convert.GroupedAppend` | src/network/mcpe/convert/GlobalItemTypeDictionary.php:111-113 | creating a new one-player group for an unseen key keeps the grouping exact for the longer input |
| `Convert.GroupsNonEmpty` | src/network/mcpe/convert/GlobalItemTypeDictionary.php:109-113 | no group is empty |
| `Convert.MembersResolve` | src/network/mcpe/convert/GlobalItemTypeDictionary.php:107-110 | every player in a group resolves to the group's key |
| `Convert.InOwnGroup` | src/network/mcpe/convert/GlobalItemTypeDictionary.php:106-114 | every input player is in the group keyed by its own resolved protocol |
| `Convert.GetDictionary` | src/network/mcpe/convert/GlobalItemTypeDictionary.php:124 | returns the id's dictionary when the id is a key, otherwise the current protocol's; it fails only when neither key is present; the id defaults to the current protocol |
| `Convert.LookupNeverFails` | src/network/mcpe/convert/GlobalItemTypeDictionary.php:124 | after a successful construction, a lookup never fails, for any id |
| `Convert.LookupDeclared` | src/network/mcpe/convert/GlobalItemTypeDictionary.php:86-124 | a client whose protocol has its own table is served the dictionary built from that protocol's file |
| `Convert.Lookup1_19_60` | src/network/mcpe/convert/GlobalItemTypeDictionary.php:87-89 | a 1.19.60 client is served the dictionary built from the "-1.19.63" file |
| `Convert.LookupBefore1_19_40` | src/network/mcpe/convert/GlobalItemTypeDictionary.php:91-93 | a client in [1.19.10, 1.19.40) is served the dictionary built from the "-1.19.40" file |
| `Convert.LookupUnknown` | src/network/mcpe/convert/GlobalItemTypeDictionary.php:124 | a client whose resolved protocol has no table is served the current protocol's dictionary, read from the base file itself |

## Left out

- Reading the file (`Filesystem::fileGetContents`) and `json_decode` are I/O and a foreign
  parser. Both become the parameter `read`, which maps a path to its decoded value. Invalid
  JSON decodes to `Null`. The exception a missing file raises is not modelled.
- The value of `BedrockDataFiles::REQUIRED_ITEM_LIST_JSON` is the parameter `base`.
- `ItemTypeDictionary`'s constructor and lookup indices are not part of this model. The
  dictionary holds its entry list. Any check that constructor makes, such as for duplicate
  names or ids, is not modelled, so the model may accept a table that constructor would reject.
- `SingletonTrait` (lazy, once-only creation of the shared instance) is left out. It is
  process-global state with no behaviour visible in this file.
- The `ProtocolInfo` constants are defined outside this class. They stay symbolic, and
  `Ordered` states the ordering the lemmas assume.
- PHP integers are 64-bit. `json_decode` already turns larger numbers into floats, so the decoded
  `Int` values are unbounded here and no wrap-around is modelled.
- `Player` and `NetworkSession` are reduced to a record of an id and the session's protocol
  number.
- `JsonValue.Json`: a decoded array may repeat a key in this type, which `json_decode` never
  produces. Decoded arrays are assumed to have distinct keys; for a repeated key `Field` would
  read the first pair where PHP keeps the last.
- Convert.GetDictionary: when neither the id nor the current protocol is a key, PHP reads `null`
  and then raises a type error on return. The model returns `None` and does not distinguish that
  error further.
- `src/entity/animation/ConsumingItemAnimation.php` is not part of this model. Its `encode`
  packs `(netId << 16) | netData` from an item translator whose value ranges this model does not fix.
