# swssconfig loader and SAI profile service, modelled in Dafny

This project models two self-contained pieces of the switch state service:

- **swssconfig** (`swssconfig.dfy`, with `json.dfy` and `decimal.dfy`): the tool that reads a
  JSON document of application-database items and writes them. `load_json_db_data` checks the
  parsed document and turns each array element into a key/op/field-values tuple.
  `write_db_data` splits each `"table:key"` at its first `':'` and issues a set or a del
  against that table. The JSON value is a datatype. Numbers pass through the 32-bit
  `get<int>()` narrowing and `std::to_string`. The database is replaced by the log of writes
  issued (`DbWrite`).
- **SAI profile service** (`saiprofile.dfy`): `gProfileMap`, the name lookup
  `test_profile_get_value`, and the enumeration `test_profile_get_next_value`. The enumeration's
  static iterator persists across calls. The class `ProfileMap` holds the map's entries in
  ascending key order and the iterator as an index (`|entries|` is `end()`).

Each loop of the source is a method proved against a reference function: `LoadJsonDbData`
against `LoadJson`, its member loop `ReadMembers` against `ApplyMembers`, its field loop
`AppendFieldValues` against `FieldValues`, and `WriteDbData` against `WriteItems`. The
enumeration call `GetNextValue` has no loop; it moves the class's persistent cursor, and its
contract states each case against the entries in order. Lemmas then state the accept/reject rules, order, splitting and enumeration
properties of those functions, each against an independent definition (`GoodElement`,
`SplitKey`'s characterisation, the entries in order).

Constants: `"OP"`, `':'` and the member count 2 come from swssconfig/swssconfig.cpp:16-18.
`SET_COMMAND` and `DEL_COMMAND` are defined in the common library, which is not part of this
model. They are taken to be `"SET"` and `"DEL"`.

## Model

| member | source | states |
|---|---|---|
| `Decimal.ToInt32` | swssconfig/swssconfig.cpp:104 | `get<int>()` narrows a number to the 32-bit range, keeping it modulo 2^32; numbers already in range are unchanged |
| `Decimal.NatText` | swssconfig/swssconfig.cpp:104 | the decimal text of a natural number is non-empty, all digits, and has no leading zero unless it is "0" |
| `Decimal.IntText` | swssconfig/swssconfig.cpp:104 | `to_string` writes canonical text (at least one digit, no leading zero, no "-0") with a leading '-' exactly for negative numbers |
| `Decimal.NatTextUnique` | swssconfig/swssconfig.cpp:104 | digits without a leading zero are exactly the decimal text of the number they denote |
| `Decimal.CanonicalUnique` | swssconfig/swssconfig.cpp:104 | canonical text is the `to_string` text of its own value, so the canonical form and the value fix the text |
| `Decimal.IntTextRoundTrip` | swssconfig/swssconfig.cpp:104 | reading the decimal text back gives the number it was written from |
| `SwssConfig.ValueText` | swssconfig/swssconfig.cpp:101-107 | a number is stored as canonical decimal text, signed iff its 32-bit value is negative, that reads back as that value (by `CanonicalUnique`, exactly `to_string`'s text); a string verbatim, anything else as "" |
| `SwssConfig.FieldValues` | swssconfig/swssconfig.cpp:99-108 | an object-valued member yields one field/value pair per inner member, in iteration order, each named after the inner member |
| `SwssConfig.AppendFieldValues` | swssconfig/swssconfig.cpp:99-108 | the field loop appends exactly `FieldValues(inner)` to the tuple's fields and changes nothing else |
| `SwssConfig.ReadMembers` | swssconfig/swssconfig.cpp:90-119 | the member loop computes `ApplyMembers`: key set and fields appended per object member, op set per "OP" string, stopping with Invalid or TypeError and the partly filled tuple |
| `SwssConfig.ApplyMembersStatus` | swssconfig/swssconfig.cpp:90-119 | reading members succeeds iff every member is object-valued or an "OP" string; the first bad member gives a `false` return unless it is named "OP", in which case `get<string>` throws |
| `SwssConfig.LoadElementStatus` | swssconfig/swssconfig.cpp:78-88 | an element is accepted iff it is a two-member object of acceptable members; a tuple is pushed iff it is an object with two members |
| `SwssConfig.LoadJsonDbData` | swssconfig/swssconfig.cpp:63-128 | the loader returns the status of `LoadJson` and appends exactly `LoadJson`'s tuples to the caller's vector |
| `SwssConfig.LoadJsonSucceedsIff` | swssconfig/swssconfig.cpp:68-126 | loading succeeds iff the root is an array and every element is a two-member object of acceptable members (so a non-array root, a non-object element or a wrong member count fails) |
| `SwssConfig.LoadElementsSucceedsIff` | swssconfig/swssconfig.cpp:74-126 | over the array, success iff every element is acceptable |
| `SwssConfig.LoadElementsOnePerElement` | swssconfig/swssconfig.cpp:74-88 | on success there is exactly one tuple per element, in array order, each the element's members read into an empty tuple |
| `SwssConfig.LoadElementsStopsAt` | swssconfig/swssconfig.cpp:74-125 | at the first refused element loading fails with that element's own status (Invalid or TypeError), keeps the earlier tuples and, for a two-member object, also its partly filled tuple |
| `SwssConfig.KeyAndOpElement` | swssconfig/swssconfig.cpp:97-118 | an element of a "table:key" object and an "OP" string, in either order, yields the tuple (key, op, the object's field values) |
| `SwssConfig.TwoObjectElement` | swssconfig/swssconfig.cpp:97-108 | two object-valued members are accepted: the second name is the key, the fields are concatenated, the op stays empty |
| `SwssConfig.FindFirst` | swssconfig/swssconfig.cpp:45 | `find` returns the first position of the character, or none exactly when it does not occur |
| `SwssConfig.SplitKey` | swssconfig/swssconfig.cpp:44-52 | a key is refused iff it has no ':' or its first ':' is its last character; otherwise table + ":" + key name rebuilds it, the table name has no ':' and the key name is non-empty |
| `SwssConfig.SplitKeyJoin` | swssconfig/swssconfig.cpp:45-52 | a table name without ':' joined with a non-empty key name splits back into the same two parts |
| `SwssConfig.WriteItem` | swssconfig/swssconfig.cpp:44-58 | one item: refused iff its key does not split; otherwise one set for "SET", one del for "DEL", nothing for any other op |
| `SwssConfig.WriteDbData` | swssconfig/swssconfig.cpp:37-61 | the write loop returns exactly `WriteItems`' result and write log |
| `SwssConfig.WriteItemsOkIff` | swssconfig/swssconfig.cpp:40-60 | writing returns true iff every key splits |
| `SwssConfig.WriteItemsStopsAt` | swssconfig/swssconfig.cpp:44-50 | a refused key leaves exactly the writes of the items before it, none for it or any later item |
| `SwssConfig.WriteItemsShape` | swssconfig/swssconfig.cpp:51-58 | on success there is one write per "SET" or "DEL" item, and every write's table and key name rejoin to one of the items' keys |
| `SwssConfig.ApplyConfig` | swssconfig/swssconfig.cpp:140-172 | a refused or throwing load fails before any write; otherwise the outcome is that of writing the loaded tuples |
| `SaiProfile.AscendingKeysDistinct` | orchagent/saihelper.cpp:37 | the map's entries, kept in ascending key order, never repeat a key |
| `SaiProfile.Find` | orchagent/saihelper.cpp:45-49 | the lookup finds nothing iff no entry has the key, and what it finds is bound to the key |
| `SaiProfile.ProfileMap.GetValue` | orchagent/saihelper.cpp:39-50 | returns the value bound to the name, or NULL iff the name is absent; being a function it changes nothing |
| `SaiProfile.ProfileMap.constructor` | orchagent/saihelper.cpp:59 | the persistent iterator starts at the first entry |
| `SaiProfile.ProfileMap.GetNextValue` | orchagent/saihelper.cpp:52-81 | a NULL `value` resets the iterator and writes nothing; at the end a call returns -1 and changes nothing; otherwise it delivers the entry at the iterator and advances by one; the return is 0 iff the iterator is not at the end afterwards |
| `SaiProfile.EnumerateFrom` | orchagent/saihelper.cpp:59-80 | successive calls deliver the entries from the iterator on, one per call, the last delivery returning -1, then only -1 with outputs untouched |
| `SaiProfile.EnumerateAfterReset` | orchagent/saihelper.cpp:59-80 | after a reset the calls deliver every entry exactly once in ascending key order, returning 0 until the last entry |

## Left out

- JSON text parsing (swssconfig/swssconfig.cpp:66) belongs to the JSON library. The model starts from the parsed value.
- Floating-point JSON numbers are left out. `Json.Number` carries an unbounded integer; the parser keeps only integers between the 64-bit signed minimum and the 64-bit unsigned maximum as integers and reads larger ones as floats, so a `Number` outside that range stands for a float and falls under this line. `get<int>()` on an integer is modelled as wrap-around modulo 2^32.
- The parser iterates object members in sorted order with distinct names. The model takes members in whatever order is given and does not require distinct names.
- The database connection, `ProducerTable` and its own failures, and the logging in `dump_db_item` (swssconfig/swssconfig.cpp:25-39, 53-58) are I/O. They are replaced by the returned write log.
- The argument and file handling of `main` (swssconfig/swssconfig.cpp:132-151) is I/O. `ApplyConfig` keeps only its control flow.
- `initSaiApi` and the SAI API pointers (orchagent/saihelper.cpp:14-35, 88-139) are calls into the SAI library.
- The `profile_id` argument is ignored by both profile functions and is not modelled.
- `SaiProfile.ProfileMap.GetNextValue`: the map is fixed for the object's lifetime. Inserting into `gProfileMap` during an enumeration is not modelled. `gProfileMap` is filled elsewhere, before the service is used.
- `SaiProfile.ProfileMap.GetNextValue`: a NULL `variable` with a non-NULL `value` dereferences NULL in the source. The model treats `variable` as always writable.
- The daemon drivers natsyncd, teamsyncd, coppmgrd and gearsyncd are not part of this model. Their select loops, signals and warm-restart waits are I/O and timing. Their reconciliation logic lives in classes that are not part of this model.
- The warm-restart reconciliation engine described for this repository is not modelled, for the same reason. The two pieces modelled here are the ones whose logic is fully present in the source.
