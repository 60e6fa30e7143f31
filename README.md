# Cassandra destination: record-to-CQL translation

This project models the part of the Cassandra destination connector that turns
a change record into a parameterised CQL statement. A record carries a key map
(the row's primary-key columns) and an after-image map (the row's new column
values). A builder returns a statement template with positional `?`
placeholders and the list of parameters bound to them, left to right.

The package holds two revisions of the builders, and each gets its own module:

- `QueryBuilder` (query_builder.go) is the current revision.
  - It leaves key columns out of the payload by an exact lookup in the key map.
  - It never changes the caller's maps.
  - Inserts carry `IF NOT EXISTS` and updates carry `IF EXISTS`.
  - A delete never looks at the after-image.
- `Parser` (parser.go) is the earlier revision.
  - It removes key columns by deleting them from the caller's after-image map in place.
  - Its statements carry no existence guard.
  - A delete still requires the after-image to be structured data.

A third, small module models the credential check `validateConfig` (config.go).

Layout:

- `GoStrings` models `strings.Join`, `Repeat`, `HasSuffix` and `TrimSuffix` as sequence operations on `seq<char>`. It also counts the occurrences of a character.
- `GoMaps` models a Go `map[string]V` as the sequence of its entries in the order one `range` visits them.
  - Go fixes no such order. Every property below is proved for an arbitrary order, so it holds for whichever order a run uses.
  - Values are an opaque type parameter `V`.
- `Cql` holds what both revisions share:
  - the `Statement` datatype;
  - the type-assertion panic as `Outcome.Panicked`;
  - the reference forms `Placeholders(n)` and `Assignments(cols, sep)`;
  - the normalizer `ValueEntries(key, after)`: the after-image entries whose name is not a key name.
- `QueryBuilder` models query_builder.go.
  - The records are values, because the code only reads them.
  - `GetColumnsAndValues` is a method with the source's two `range` loops and its `continue`.
  - The `Build*` methods are proved equal to the specification functions `InsertStatement`, `UpdateStatement` and `DeleteStatement`.
- `Parser` models parser.go.
  - The record's structured data is a class `StructuredData` whose `entries` field the builders change, because `delete(payload, k)` mutates the caller's map.
  - `PairValuesWithPlaceholder` is the source's accumulate-then-trim loop, proved equal to `Assignments`.
- `Revisions` proves that the current statements are the earlier ones followed by their guard, with the same parameters. From this it derives the earlier revision's alignment properties and test vectors.
- `Config` models `validateConfig` over the `DestinationConfig` fields.

"Placeholders line up with parameters" is stated by counting `?` in the
template. This is stated for table and column names that contain no `?`
themselves (`Plain`). The parameters are also stated explicitly: the value
entries' values followed by the key entries' values, in the order of the
column list, SET clause and WHERE clause.

Neither revision rejects anything:

- An empty key map gives an empty WHERE clause (`DELETE FROM t WHERE `).
- An empty payload gives an empty SET clause.
- `QueryBuilder.EmptyClauses` states this behaviour.

Every builder panics on a type assertion when the key is not structured data.
Every builder except the current revision's delete also panics when the
after-image is not structured data. The model returns `Panicked(cause)`
instead, and changes nothing in that case.

Both revisions join SET clauses with `,` and WHERE clauses with `AND`
(query_builder.go:29-30, parser.go:29-30); the modules hold these as the
constants `SetStatementSeparator` and `WhereStatementSeparator`.

## Model

| member | source | states |
|---|---|---|
| GoMaps.Has | query_builder.go:90 | the lookup `_, ok := key[k]` holds exactly when some entry has that exact name |
| GoMaps.Exclude | query_builder.go:88-95 | membership both ways: every kept entry is an entry of the map whose name is not excluded, and every entry whose name is not excluded is kept |
| GoMaps.ExcludePositions | query_builder.go:88-95 | the kept entries are the map's entries at strictly increasing positions, and those positions are exactly the entries whose name is not excluded: the map's order, each entry once |
| GoMaps.ExcludeDistinct | parser.go:91 | deleting names from a map leaves a map (names stay distinct) |
| GoMaps.ExcludeOneSize | parser.go:91 | `delete(m, k)` removes exactly one entry when `k` is present and none otherwise |
| GoMaps.ExcludeTwice | parser.go:88-92 | deleting one batch of names and then another is deleting both at once, so deleting key names one by one strips them all |
| Cql.RepeatThenTrim | query_builder.go:65 | `TrimSuffix(Repeat("?, ", n), ", ")` is `n` copies of `?` joined by `", "` |
| Cql.PlaceholdersCount | query_builder.go:64-66 | a value list of `n` placeholders holds exactly `n` question marks |
| Cql.Assignments | query_builder.go:68-73 | a SET or WHERE clause is empty exactly when there are no columns |
| Cql.AssignmentsCount | query_builder.go:68-73 | a clause over columns without `?` holds exactly one placeholder per column |
| Cql.AssignmentsEndInPlaceholder | query_builder.go:72 | a non-empty clause ends in its last column's ` = ?` |
| Cql.AssignmentsSnoc | parser.go:70-72 | appending one column adds the separator and that column's `col = ?` at the end of the clause |
| Cql.ValueEntries | query_builder.go:88-95 | the record normalizer: never more entries than the after-image; every entry kept is an after-image entry whose name is no key name, and every after-image entry whose name is no key name is kept |
| Cql.ValueColumnsExact | query_builder.go:88-95 | a column is a payload column exactly when the after-image has it and the key map has no entry of that exact name |
| Cql.WrittenRowsBind | query_builder.go:38-41 | every written column is bound to the record's own value for it (the key map's for a key column, the after-image's otherwise); every key entry and every non-key after-image entry is written |
| Cql.KeyEchoIgnored | query_builder.go:90-92 | a key column repeated in the after-image does not change the payload entries |
| Cql.ValueEntriesIdempotent | parser.go:91 | stripping the key names from an already stripped after-image changes nothing |
| QueryBuilder.InsertTemplate | query_builder.go:25 | `insertQuery` filled in: it ends in the guard ` IF NOT EXISTS` |
| QueryBuilder.UpdateTemplate | query_builder.go:26 | `updateQuery` filled in: it ends in the guard ` IF EXISTS` |
| QueryBuilder.DeleteTemplate | query_builder.go:27 | `deleteQuery` filled in: it ends in ` WHERE ` followed by the WHERE clause, with no guard |
| QueryBuilder.GetPlaceholders | query_builder.go:64-66 | the value list for `length` columns is `length` copies of `?` joined by `", "` (empty for 0) |
| QueryBuilder.PlaceholderExamples | query_builder_test.go:27-30 | `""` for 0, `"?"` for 1, `"?, ?, ?"` for 3 |
| QueryBuilder.PairValuesWithPlaceholder | query_builder.go:68-73 | `Join(cols, " = ? SEP ") + " = ?"`, or `""` for no columns, is the reference clause: each column followed by ` = ?`, joined by ` SEP ` |
| QueryBuilder.JoinedAssignments | query_builder.go:72 | for a non-empty column list the join-then-append form equals the reference clause |
| QueryBuilder.PairValuesWhereExample | query_builder_test.go:32-34 | `["one","two","three"]` with `AND` gives `one = ? AND two = ? AND three = ?`; no columns give `""` |
| QueryBuilder.PairValuesSetExample | query_builder_test.go:35-36 | `["one","two","three"]` with `,` gives `one = ? , two = ? , three = ?` |
| QueryBuilder.GetColumnsAndValues | query_builder.go:76-98 | the key columns and values enumerate the key map index-aligned; the payload columns and values enumerate exactly the after-image entries whose name is not a key name; the maps are values and are not changed |
| QueryBuilder.PayloadColumnsDisjoint | query_builder.go:88-95 | no payload column is a key column, and every after-image entry not named by the key is a payload column |
| QueryBuilder.SubstringSafety | query_builder.go:90 | key `{id, id2}` does not hide a payload column `id2value`: membership is by whole name |
| QueryBuilder.BuildInsertQuery | query_builder.go:37-43 | panics on a non-structured key, then on a non-structured after-image; otherwise builds the insert of the payload rows followed by the key rows |
| QueryBuilder.BuildUpdateQuery | query_builder.go:46-53 | the same panics; otherwise SET over the payload columns, WHERE over the key columns, payload values then key values |
| QueryBuilder.BuildDeleteQuery | query_builder.go:56-61 | panics only on a non-structured key; otherwise the delete depends on the key map alone (nil payload) |
| QueryBuilder.InsertAligned | query_builder.go:25 | the insert holds one placeholder per parameter, its parameters are the payload values then the key values, and it ends in ` IF NOT EXISTS` |
| QueryBuilder.UpdateAligned | query_builder.go:26 | the update holds one placeholder per parameter, its parameters are the payload values then the key values, and it ends in ` IF EXISTS` |
| QueryBuilder.DeleteAligned | query_builder.go:27 | the delete holds one placeholder per key value, its parameters are the key values in WHERE order, and with a non-empty key it ends in the last ` = ?` (no guard) |
| QueryBuilder.KeyEchoNeverWritten | query_builder.go:89-92 | an after-image that repeats a key column gives the same insert and update as one without it |
| QueryBuilder.EmptyClauses | query_builder.go:69-71 | no error for empty maps: an empty key gives `DELETE FROM t WHERE ` and empty maps give an update with empty SET and WHERE clauses |
| QueryBuilder.InsertExample | query_builder_test.go:42-52 | key `{id}` and after-image `{age}` give `INSERT INTO my_table (age, id) VALUES (?, ?) IF NOT EXISTS` with `[22, "6"]` |
| QueryBuilder.UpdateExample | query_builder_test.go:58-69 | key `{id}` and after-image `{age, id}` give `UPDATE my_table SET age = ? WHERE id = ? IF EXISTS` with `[33, "6"]` |
| QueryBuilder.UpdateExampleSwapped | query_builder_test.go:58-69 | the after-image `{age, id}` enumerated id first gives the same update |
| QueryBuilder.DeleteExample | query_builder_test.go:75-84 | key `{id, id2}` enumerated as id, id2 gives `DELETE FROM my_table WHERE id = ? AND id2 = ?` with both values |
| QueryBuilder.DeleteExampleSwapped | query_builder_test.go:82-84 | the other enumeration order gives `... WHERE id2 = ? AND id = ?` with the values in that order |
| Parser.StructuredData.Delete | parser.go:91 | `delete(payload, k)` removes the entry named `k` when present, keeps every other entry in order, and keeps the names distinct |
| Parser.InsertTemplate | parser.go:25 | `insertQuery` filled in: it ends in the `)` that closes the value list, with no guard |
| Parser.UpdateTemplate | parser.go:26 | `updateQuery` filled in: it ends in ` WHERE ` followed by the WHERE clause, with no guard |
| Parser.DeleteTemplate | parser.go:27 | `deleteQuery` filled in: it ends in ` WHERE ` followed by the WHERE clause |
| Parser.GetPlaceholders | parser.go:64-66 | the value list for `length` columns is `length` copies of `?` joined by `", "` |
| Parser.TerminatedAssignments | parser.go:70-72 | after the loop, the text is the reference clause followed by one trailing ` SEP ` |
| Parser.PairValuesWithPlaceholder | parser.go:68-78 | appending `col = ? SEP ` per column and trimming one trailing ` SEP ` yields exactly the reference clause (`""` for no columns) |
| Parser.GetColumnsAndValues | parser.go:81-100 | the caller's payload map loses every key name and keeps every other entry; the key columns and values enumerate the key map as it was on entry; the payload columns and values enumerate what is left |
| Parser.RangeEntries | parser.go:94-97 | ranging over a map and appending yields its names and its values, index-aligned |
| Parser.BuildInsertQuery | parser.go:37-43 | panics on a non-structured key or after-image; otherwise builds the insert of the payload rows then the key rows and leaves the caller's after-image without key names |
| Parser.BuildUpdateQuery | parser.go:46-53 | the same panics; otherwise SET over the payload columns, WHERE over the key columns, and the after-image stripped of key names |
| Parser.BuildDeleteQuery | parser.go:56-61 | panics on a non-structured key and also on a non-structured after-image; otherwise builds the delete by the key and strips key names from the after-image |
| Parser.RebuildSame | parser.go:38 | building again from a record an earlier build already stripped gives the same insert and update |
| Revisions.InsertGuardAdded | query_builder.go:25 | the current insert is the earlier insert followed by ` IF NOT EXISTS`, with the same parameters |
| Revisions.UpdateGuardAdded | query_builder.go:26 | the current update is the earlier update followed by ` IF EXISTS`, with the same parameters |
| Revisions.DeleteUnchanged | parser.go:27 | both revisions send the same delete for the same key map |
| Revisions.ParserInsertAligned | parser.go:38-42 | the earlier insert holds one placeholder per parameter, binds payload values then key values, and ends in `)` with no guard |
| Revisions.ParserUpdateAligned | parser.go:47-51 | the earlier update holds one placeholder per parameter, binds payload values then key values, and with a non-empty key ends in ` = ?` with no guard |
| Revisions.ParserDeleteAligned | parser.go:57-60 | the earlier delete holds one placeholder per key value and binds the key values in WHERE order |
| Revisions.ParserPlaceholderExamples | parser_test.go:28-31 | `"?"` for 1 and `"?, ?, ?"` for 3 |
| Revisions.ParserPairValuesExamples | parser_test.go:33-37 | the loop-built clauses for `["one","two","three"]` with `AND` and with `,` |
| Revisions.ParserInsertExample | parser_test.go:43-53 | key `{id}` and after-image `{age}` give `INSERT INTO my_table (age, id) VALUES (?, ?)` with `[22, "6"]` |
| Revisions.ParserUpdateExample | parser_test.go:59-70 | key `{id}` and after-image `{age}` give `UPDATE my_table SET age = ? WHERE id = ?` with `[33, "6"]` |
| Revisions.ParserDeleteExample | parser_test.go:76-85 | key `{id, id2}` gives either WHERE order with the values in that order |
| Config.ValidateConfig | config.go:44-49 | an error only for the basic mechanism with a credential missing, and then the fixed message; basic with both credentials is accepted |
| Config.BasicNeedsUsername | config.go:45-46 | basic without a username is refused |
| Config.BasicNeedsPassword | config.go:45-46 | basic without a password is refused |
| Config.OtherMechanismsPass | config.go:45-48 | every mechanism other than basic, `none` included, passes whatever the credentials hold |
| Config.OnlyCredentialsMatter | config.go:44-49 | the verdict depends only on the mechanism and on which credentials are empty |
| Config.CredentialTestCases | config_test.go:28-53 | a missing password, a missing username, both missing are refused; `none` with no credentials passes |

## Left out

- destination.go (`Open`, `Teardown` and `Write`) is not part of this model. It is session and network plumbing over the gocql driver, with no translation logic.
- The integration tests need a live Cassandra cluster and are not modelled.
- The `Nodes` cases of config_test.go test validation that config.go does not contain.
- Parsing the configuration (paramgen, `validate:` and `default:` struct tags) is SDK library behaviour and is not modelled.
  - In particular, `ValidateConfig` accepts any mechanism string. The `inclusion=none|basic` tag that restricts it is enforced elsewhere.
- cmd/connector/main.go only calls `sdk.Serve` and is not modelled.
- The values bound to placeholders (`interface{}`) are opaque. Their CQL types and encoding are not modelled.
- Go map enumeration order is modelled as an arbitrary but fixed order: the entry sequence. The model proves properties for every order and does not model the order varying between two `range` loops over one map.
- The placeholder count is proved only for table and column names that contain no `?`. A name containing `?` is passed into the template by `fmt.Sprintf` unchanged. The count is then off, and the model says nothing about that case.
- Go strings are byte sequences; the model uses `seq<char>`. The separators and keywords are ASCII, and the byte of `?` never occurs inside a multi-byte UTF-8 character, so counting placeholders gives the same result either way.
- Go's `strings.Repeat` panics for a negative count. `GetPlaceholders` takes a `nat`, because every caller passes a `len(...)`.
- The order of the two type assertions in a `Build*` call is not fixed by Go's specification: they are operands of one call, not calls. The model checks the key first, as gc evaluates them left to right, so when both assertions fail the model reports the key (`KeyNotStructured`).
- The model does not represent Go's reuse of slice backing arrays by `append`: the slices are values.
