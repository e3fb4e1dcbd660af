# hbase-retriever, modelled in Dafny

hbase-retriever is a Lambda function that reads one record from HBase, or
clears the table of a Kafka topic. A request names a topic and a message key.

- **Table name.** The topic is resolved to a qualified table name,
  `namespace:table`, or to a shared default table.
- **Row key.** The key is turned into the row key the ingestion side wrote.
  A message body that is an id (hexadecimal digits and hyphens) stands for
  the object `{"id": body}`. Any other body must be a JSON object. The
  object's top-level entries are sorted by key and rendered compactly. The
  key is the CRC-32 of that canonical text, as four big-endian bytes,
  followed by the text's UTF-8 bytes.
- **Store operation.** A read request fetches one cell, optionally pinned to
  a timestamp. A delete request disables the table and then either deletes
  it or truncates it.

The model has these modules:

- `KeyGenerationUtil`: the current key derivation (`getId`, `convertToJson`, `sortJsonByKey`, `generateFourByteChecksum`, `generateKey`, `printableKey`).
- `KeyGeneration`: the older form, which parses every body as JSON. Its checksum, sort and printable key (src/main/kotlin/KeyGeneration.kt:36-57) repeat those of the current form line for line, so the model uses the same definitions.
- `TableNameUtil`: `topicNameTableMatcher` and `getQualifiedTableName`.
- `Handler`: `processRequest`.
- `HbaseManager`: `getDataFromHbase` and `deleteMessagesFromTopic`, over an abstract store.

Library behaviour the code relies on is modelled in modules of its own:

- `Bytes`: signed JVM bytes, and `ByteBuffer.putInt` big-endian.
- `Utf8`: `String.toByteArray()` and `String(ByteArray)`.
- `Crc32`: `java.util.zip.CRC32`.
- `Json`, `JsonNumber`, `JsonParser` and `JsonRoundTrip`: a JSON object that
  behaves as a linked hash map, a compact writer, and a reader for the
  grammar of RFC 8259, which refuses `\u` escapes that leave a surrogate
  unpaired.
- `KeyOrder`: `String.compareTo` (UTF-16 code units) and sorted-map key order.

Some of what the code does is easy to misread. The model follows the code:

- **Sorting.** Only the top-level keys are sorted (`toSortedMap` on the outer
  object). Nested objects keep the order they were read in.
- **Key order.** Keys are compared by UTF-16 code unit, as
  `String.compareTo` does, not by code point. The two orders differ for
  characters above U+FFFF against U+E000 to U+FFFF.
- **Topic prefix.** The first segment of a topic must be `\w+`, not any
  non-dot text.
- **Non-matching topic.** When tables are per topic, a topic that does not
  match falls back to the default table; nothing is thrown.
- **Clearing a table.** The non-entire delete truncates the whole table. It
  does not delete one column from each row.

## Model

| member | source | states |
|---|---|---|
| KeyGenerationUtil.GetId | src/main/kotlin/KeyGenerationUtil.kt:28-48 | A body that matches `^[0-9a-fA-F-]*$` in full, the empty body included, becomes a fresh object whose single entry is "id" → the body. Any other body is parsed: text that is not JSON fails with InvalidJson, and JSON that is not an object fails with NotAnObject (the failed cast). |
| KeyGenerationUtil.ParsedObjectNotIdLike | src/main/kotlin/KeyGenerationUtil.kt:29-41 | Text that parses as an object never matches the id pattern, so the id branch never hides a JSON object. |
| KeyGenerationUtil.ConvertToJson | src/main/kotlin/KeyGenerationUtil.kt:23-26 | Every object it yields has distinct keys, with well-formed values all the way down. |
| KeyGenerationUtil.SortedFields | src/main/kotlin/KeyGenerationUtil.kt:60-61 | The sorted copy lists its keys in strictly ascending `String.compareTo` order, so each key appears once. It stands for the same key-to-value map as the object it was made from. |
| KeyGenerationUtil.SortJsonByKey | src/main/kotlin/KeyGenerationUtil.kt:59-63 | The sorted text is an object's text, opening and closing with a brace. What it holds is stated by SortedFields (keys strictly ascending, the same map), SortJsonByKeyReadsBack (it reads back as the sorted object) and SortJsonByKeyInjective (same text exactly when same map). |
| KeyGenerationUtil.SortJsonByKeyReadsBack | src/main/kotlin/KeyGenerationUtil.kt:59-63 | Reading the sorted text back gives exactly the sorted object: the compact writer loses nothing. |
| KeyGenerationUtil.SortJsonByKeyInjective | src/main/kotlin/KeyGenerationUtil.kt:59-63 | Two objects give the same sorted text exactly when they stand for the same map. Entry order does not count. A different value counts, and so does a different type (`2` vs `"2"`, `false` vs `"false"`, `null` vs `"null"`). |
| KeyGenerationUtil.SortExample | src/main/kotlin/KeyGenerationUtil.kt:59-63 | `{testb:true, testA:"test1", testC:2}` is written `{"testA":"test1","testC":2,"testb":true}`: upper case sorts before lower case, and there is no whitespace. |
| KeyGenerationUtil.FourByteChecksum | src/main/kotlin/KeyGenerationUtil.kt:50-57 | Exactly four bytes, for every input including the empty string. Read big-endian, they are the CRC-32 of the input's UTF-8 bytes. |
| KeyGenerationUtil.GenerateFourByteChecksum | src/main/kotlin/KeyGenerationUtil.kt:50-57 | A fresh CRC32 object is updated with all the bytes (offset 0, full length). Its value is put into a four-byte buffer. The buffer's array equals FourByteChecksum. |
| KeyGenerationUtil.GenerateKey | src/main/kotlin/KeyGenerationUtil.kt:15-21 | Fails exactly when the body has no canonical text, and with the same error. Otherwise the key is four bytes followed by the UTF-8 canonical text, and those four bytes, read big-endian, are the CRC-32 of the rest. |
| KeyGenerationUtil.KeyIdentifiesCanonicalForm | src/main/kotlin/KeyGenerationUtil.kt:18-20 | Two keys are equal if and only if their canonical texts are, whatever the checksums do: the text follows a fixed-length prefix. |
| KeyGenerationUtil.KeyDeterminedByMap | src/main/kotlin/KeyGenerationUtil.kt:15-21 | Two bodies that yield objects get the same key if and only if the objects stand for the same map. Reordered entries give the same key; any changed key or value gives a different one. |
| KeyGenerationUtil.WhitespaceDoesNotMatter | src/main/kotlin/KeyGenerationUtil.kt:15-21 | Whitespace between tokens does not change the key. Take two texts of one object that differ only in whitespace: each gap between tokens has its own run, and there may be runs before and after the object. Both texts get the same key. |
| KeyGenerationUtil.ObjectTextConverts | src/main/kotlin/KeyGenerationUtil.kt:38-41 | Text that reads as an object converts to that very object. |
| KeyGenerationUtil.IdBodyCanonicalForm | src/main/kotlin/KeyGenerationUtil.kt:28-36 | The canonical text of an id body is exactly `{"id":"` + body + `"}`, with the body unescaped. |
| KeyGenerationUtil.IdBodyAsObject | src/main/kotlin/KeyGenerationUtil.kt:28-36 | Sending an id, or sending the object `{"id":"<id>"}`, gives the same key. |
| KeyGenerationUtil.HexPrefix | src/main/kotlin/KeyGenerationUtil.kt:66-67 | Gives four characters per byte: `\x` and the byte's two lower-case hexadecimal digits (`%02x` of the unsigned value). |
| KeyGenerationUtil.PrintableKey | src/main/kotlin/KeyGenerationUtil.kt:65-70 | For a key of at least four bytes the output is 16 + (length − 4) characters long. It begins with `\xNN` for each checksum byte. Each later byte follows as the character `Byte.toChar` gives, which sign-extends bytes from 0x80 up to U+FF80 to U+FFFF. |
| KeyGenerationUtil.PrintableKeyInjective | src/main/kotlin/KeyGenerationUtil.kt:65-70 | Different keys print differently. |
| KeyGenerationUtil.PrintableKeyShowsAsciiText | src/main/kotlin/KeyGenerationUtil.kt:68-69 | When the canonical text is ASCII, everything after the 16 escape characters is exactly that text. |
| KeyGeneration.ConvertToJson | src/main/kotlin/KeyGeneration.kt:19-34 | Every body is parsed, with no id wrapping. Whatever it yields is a well-formed object. |
| KeyGeneration.GenerateKey | src/main/kotlin/KeyGeneration.kt:11-17 | The same four-byte checksum prefix and canonical-text suffix as the current form, with failure exactly when conversion fails. |
| KeyGeneration.AgreesOnNonIds | src/main/kotlin/KeyGeneration.kt:19-34 | On a body that is not an id, the older and current forms agree on conversion and on the key, failures included. |
| KeyGeneration.AcceptedBodiesAgree | src/main/kotlin/KeyGeneration.kt:11-17 | Any body the older form accepts gets the same key from the current form. |
| KeyGeneration.IdBodyRejected | src/main/kotlin/KeyGeneration.kt:19-34 | An id on its own, such as a GUID or the empty body, has no key in the older form. |
| KeyGeneration.KeyDeterminedByMap | src/main/kotlin/KeyGeneration.kt:11-17 | Equal keys if and only if equal maps, for any two accepted bodies. |
| KeyGeneration.OrderExample | src/test/kotlin/KeyGenerationTest.kt:106-114 | `{"testOne":"test1", "testTwo":2}` and the same entries swapped, `{"testTwo":2, "testOne":"test1"}`, both have a key, and it is the same key. |
| KeyGeneration.WhitespaceExample | src/test/kotlin/KeyGenerationTest.kt:116-124 | The same object with the uneven runs of the test (4 spaces after the brace, 14 after the first colon, 12 after the comma, 2 after the second colon) gets the key of `{"testOne":"test1", "testTwo":2}`. |
| KeyGeneration.OrderAndWhitespaceExample | src/test/kotlin/KeyGenerationTest.kt:126-134 | The swapped entries, written with those same uneven runs, also get the key of `{"testOne":"test1", "testTwo":2}`. |
| KeyGeneration.TruncatedObjectRejected | src/main/kotlin/KeyGeneration.kt:19-34 | The truncated body `{"testOne":` fails with InvalidJson. |
| Crc32.Crc32.Update | src/main/kotlin/KeyGenerationUtil.kt:52-54 | `update(bytes, off, len)` extends the running CRC by exactly the bytes `off .. off+len`. |
| Crc32.CheckValue | src/main/kotlin/KeyGenerationUtil.kt:52-54 | The CRC of the ASCII digits "123456789" is 0xCBF43926, the check value of the ISO 3309 / ITU-T V.42 CRC-32. This pins the polynomial, the reflection and the final complement. |
| Bytes.ByteBuffer.PutInt | src/main/kotlin/KeyGenerationUtil.kt:56 | Writes the 32-bit value as four big-endian bytes at the current position, advances by four, and leaves the rest of the buffer as it was. |
| Bytes.BigEndianRoundTrip | src/main/kotlin/KeyGenerationUtil.kt:56 | Reading the four bytes big-endian gives back the value written. |
| Utf8.DecodeEncode | src/main/kotlin/KeyGenerationUtil.kt:24 | Decoding the UTF-8 bytes of a string gives the string back. |
| Utf8.EncodeInjective | src/main/kotlin/KeyGenerationUtil.kt:20 | Two strings have the same UTF-8 bytes if and only if they are equal. |
| Json.JsonObject.Set | src/main/kotlin/KeyGenerationUtil.kt:31 | `obj[key] = value` works as a linked-hash-map put: a new key goes at the end, and an existing key keeps its place with the new value. |
| Json.PutToMap | src/main/kotlin/KeyGenerationUtil.kt:31 | After a put, the object stands for the old map updated at that key. |
| JsonRoundTrip.RenderRoundTrip | src/main/kotlin/KeyGenerationUtil.kt:62 | Parsing the compact rendering of a well-formed value gives the value back. |
| JsonRoundTrip.RenderInjective | src/main/kotlin/KeyGenerationUtil.kt:62 | Two well-formed values render alike if and only if they are equal. |
| JsonRoundTrip.TextRoundTrip | src/main/kotlin/KeyGenerationUtil.kt:41 | The parser reads a value back from its text whatever insignificant whitespace surrounds it. Each gap between tokens, at any depth, may hold its own run, and there may be runs before and after the value. |
| JsonRoundTrip.ParseWellFormed | src/main/kotlin/KeyGenerationUtil.kt:41 | Every parsed value is well formed: each of its objects, at any depth, has distinct keys. |
| KeyOrder.Total | src/main/kotlin/KeyGenerationUtil.kt:60 | Of two different strings, one comes first under `String.compareTo`. |
| KeyOrder.Transitive | src/main/kotlin/KeyGenerationUtil.kt:60 | `String.compareTo` order is transitive. |
| KeyOrder.SortKeys | src/main/kotlin/KeyGenerationUtil.kt:60 | The keys of a sorted map: strictly ascending, with exactly the keys put in. |
| KeyOrder.SortedUnique | src/main/kotlin/KeyGenerationUtil.kt:60 | Two strictly ascending key lists with the same keys are the same list. |
| KeyOrder.SortKeysDeterminedBySet | src/main/kotlin/KeyGenerationUtil.kt:60 | The sorted keys depend only on which keys occur, not on their order or on repeats. |
| TableNameUtil.ReplaceHyphens | src/main/kotlin/TableNameUtil.kt:14 | `replace("-", "_")`: the same length, every hyphen turned into an underscore, every other character kept. |
| TableNameUtil.TopicNameTableMatcher | src/main/kotlin/TableNameUtil.kt:4-6 | When the topic matches, both groups are non-empty runs of `[-\w]`. MatcherSound and MatcherComplete state that it finds exactly the matches of the pattern, with their groups. |
| TableNameUtil.MatcherSound | src/main/kotlin/TableNameUtil.kt:4-6 | Whatever the matcher returns is a match of `^\w+\.([-\w]+)\.([-\w]+)$`: a word, a dot, the namespace, a dot, the table. After the table comes the end of input, or one final line terminator, which `$` also accepts. |
| TableNameUtil.MatcherComplete | src/main/kotlin/TableNameUtil.kt:4-6 | Every match of the pattern is found, with its two groups. |
| TableNameUtil.GetQualifiedTableName | src/main/kotlin/TableNameUtil.kt:8-19 | The result is the default table, or, with tables per topic, a name that holds a colon and no hyphen. QualifiedNameOfMatch, DefaultWhenNoMatch and DefaultWhenShared state which of the two each topic gets. |
| TableNameUtil.QualifiedNameOfMatch | src/main/kotlin/TableNameUtil.kt:9-15 | A matching topic, with tables per topic, names `namespace:table` with hyphens turned into underscores. The result has no hyphen, and its two parts are non-empty and free of colons. |
| TableNameUtil.DefaultWhenNoMatch | src/main/kotlin/TableNameUtil.kt:10-18 | With tables per topic, a topic that matches the pattern in no way falls through to the default table; nothing is thrown. |
| TableNameUtil.DefaultWhenShared | src/main/kotlin/TableNameUtil.kt:8-18 | Without tables per topic, every topic gets the default table. |
| TableNameUtil.TableNameExample | src/main/kotlin/TableNameUtil.kt:8-19 | `db.database-1.collection-1` names `database_1:collection_1`. |
| TableNameUtil.BadCharAfterNamespace | src/main/kotlin/TableNameUtil.kt:4 | A character outside `[-\w]`, other than a dot, right after the namespace means no match. A space is one such character. |
| TableNameUtil.BadCharAfterTable | src/main/kotlin/TableNameUtil.kt:4 | A character outside `[-\w]` right after the table means no match, unless it is the single line terminator `$` accepts. |
| TableNameUtil.TwoSegmentsNoMatch | src/main/kotlin/TableNameUtil.kt:4 | A topic of only two segments, such as `database.collection`, does not match. |
| TableNameUtil.SpaceInNamespaceExample | src/test/kotlin/TableNameUtilTest.kt:30-38 | `ab.database_1 .collection_1` does not match. The tests use this topic twice: the second time a `!` follows the table, but the space after the namespace already rules out a match. |
| TableNameUtil.BangAfterTableExample | src/main/kotlin/TableNameUtil.kt:4 | A topic with a clean namespace and the table `collection_1!`, such as `ab.database_1.collection_1!`, does not match: the `!` after the table alone rules it out. This is what TableNameUtilTest.kt:35 names. That test's topic also has a space after its namespace, so the match fails before reaching the `!`. |
| Handler.Route | src/main/kotlin/Handler.kt:24-49 | Routes a request to exactly one store operation, with the table name resolved from the topic. A delete request goes to deleteMessagesFromTopic(family, column, table, deleteEntireTableWhenInDeleteMode). Any other request goes to getDataFromHbase(table, generateKey(UTF-8 of key), family, column, timestamp), with the timestamp unchanged. It fails only when a read request's key has no row key, with that error. |
| Handler.ProcessRequest | src/main/kotlin/Handler.kt:24-49 | Run against a manager: when the key cannot be derived, nothing reaches the store and the manager is left exactly as it was, its connection flag included. Otherwise the handler returns the routed operation's result unchanged: for a delete that is the qualifier, for a read the cell's value or nothing, and a store exception becomes a failure. Exactly that operation's calls are made, its state change happens, and the connection is left closed. Every cell's versions stay newest first. |
| Handler.DeleteIgnoresKey | src/main/kotlin/Handler.kt:32-37 | A delete request derives no key. It is routed the same whatever its key, even a key that is not JSON. |
| Handler.ReadIgnoresDeleteMode | src/main/kotlin/Handler.kt:39-47 | A read request is routed the same whatever its delete mode, and never to a delete. |
| Handler.TableNameFromTopicOnly | src/main/kotlin/Handler.kt:30 | Requests with the same topic use the same table, whichever branch they take. |
| Handler.ReadKeyIsChecked | src/main/kotlin/Handler.kt:40-41 | The row key a read looks up has its checksum in its first four bytes, so printableKey is defined on it. |
| Handler.IdKeyLookup | src/main/kotlin/Handler.kt:40 | A read whose key is an id looks up the row of `{"id":"<key>"}`. |
| Handler.DeleteAnswersQualifier | src/main/kotlin/Handler.kt:37 | A delete request on a missing or enabled table answers with the configured column, as bytes. |
| Handler.NothingReadAfterDeleteRequest | src/main/kotlin/Handler.kt:32-47 | Once a delete request on a topic has succeeded, in either mode, a read request on that topic finds nothing. The only failure it can meet is a truncated table that never had the configured column family. |
| HbaseManager.Pin | src/main/kotlin/HbaseManager.kt:19-21 | The read is pinned to the timestamp exactly when it is positive. |
| HbaseManager.ReadVersion | src/main/kotlin/HbaseManager.kt:18-25 | An unpinned read gives the newest version, if any. A pinned read gives a value exactly when some version has that timestamp, and the value is that version's. |
| HbaseManager.PinnedReadFindsVersion | src/main/kotlin/HbaseManager.kt:19-20 | In versions kept newest first, a read pinned to a stored timestamp returns the value stored there, wherever it sits. |
| HbaseManager.UnpinnedReadIsNewest | src/main/kotlin/HbaseManager.kt:18-23 | An unpinned read returns the version with the greatest timestamp. |
| HbaseManager.ReadValueWasStored | src/main/kotlin/HbaseManager.kt:16-25 | A value the read returns was stored. The table exists, is enabled and declares the family, and the cell holds a version with that value. |
| HbaseManager.DeleteStateWellKept | src/main/kotlin/HbaseManager.kt:36-61 | Dropping or emptying a table leaves every remaining cell in one of its table's families, with its versions newest first. |
| HbaseManager.GetFindsStoredVersion | src/main/kotlin/HbaseManager.kt:16-25 | In a well-kept store (every cell in a declared family, versions newest first), a read pinned to the positive timestamp of a stored version of an enabled table returns that version's value. |
| HbaseManager.DeleteState | src/main/kotlin/HbaseManager.kt:38-57 | Only the named table changes. When it exists and is enabled, it is gone (entire), or present, enabled and empty with its column families kept (truncate). Otherwise nothing changes. |
| HbaseManager.GetClosesConnection | src/main/kotlin/HbaseManager.kt:14-33 | getDataFromHbase opens one connection first and closes it exactly once, as its last call, on both returns. |
| HbaseManager.DeleteClosesConnection | src/main/kotlin/HbaseManager.kt:37-59 | deleteMessagesFromTopic opens one connection first and closes it exactly once, as its last call, whether it returns or raises. |
| HbaseManager.DeleteUsesNoTableHandle | src/main/kotlin/HbaseManager.kt:36-61 | Neither delete mode opens a table handle or reads a cell. |
| HbaseManager.AbsentTableUntouched | src/main/kotlin/HbaseManager.kt:36-61 | A missing table gets no disable, delete, truncate or table handle from either operation, and no table changes. |
| HbaseManager.EntireTableDeleted | src/main/kotlin/HbaseManager.kt:42-47 | Deleting an entire existing table disables it and then deletes it, with no truncate. Afterwards the table does not exist. |
| HbaseManager.TableTruncated | src/main/kotlin/HbaseManager.kt:52-57 | Clearing an existing table disables it and then truncates it with preserveSplits = false, with no delete. Afterwards the table still exists. |
| HbaseManager.NothingReadAfterDelete | src/main/kotlin/HbaseManager.kt:36-61 | After a successful delete in either mode, no read of that table gives a value. It gives nothing, except that a truncated table still raises NoSuchColumnFamilyException for a family it never had. |
| HbaseManager.DeleteIdempotent | src/main/kotlin/HbaseManager.kt:36-61 | Repeating a delete changes nothing more. |
| HbaseManager.HbaseManager.OpenConnection | src/main/kotlin/HbaseManager.kt:14 | Opening a connection is recorded and leaves the tables alone. |
| HbaseManager.HbaseManager.CloseConnection | src/main/kotlin/HbaseManager.kt:14 | The end of the `use` block closes the connection and records it. |
| HbaseManager.HbaseManager.TableExistsCall | src/main/kotlin/HbaseManager.kt:16 | tableExists is true exactly for tables in the store, disabled ones included. |
| HbaseManager.HbaseManager.GetCall | src/main/kotlin/HbaseManager.kt:18-25 | Table.get plus getValue: the value of the cell, or an exception. The exception is TableNotFound for a missing table, TableNotEnabled for a disabled one, and NoSuchColumnFamily for a family the table does not declare. |
| HbaseManager.HbaseManager.DisableTableCall | src/main/kotlin/HbaseManager.kt:44 | Disables an enabled table. A missing or already disabled table raises, and nothing changes. |
| HbaseManager.HbaseManager.DeleteTableCall | src/main/kotlin/HbaseManager.kt:45 | Removes a disabled table. A missing or enabled table raises, and nothing changes. |
| HbaseManager.HbaseManager.TruncateTableCall | src/main/kotlin/HbaseManager.kt:55 | Empties a disabled table, keeping its column families, and enables it again. A missing or enabled table raises, and nothing changes. |
| HbaseManager.HbaseManager.GetDataFromHbase | src/main/kotlin/HbaseManager.kt:13-34 | A missing table gives nothing, not an error. A disabled table makes the read fail, and so does a family the table does not declare (NoSuchColumnFamilyException). Otherwise the answer is the value of (row key, family, column), pinned or newest, or nothing when the cell holds no such version. The tables do not change and every cell's versions stay newest first. The calls are connect, tableExists, then (for an existing table only) getTable, get, close of the table, and finally close. The connection is left closed. |
| HbaseManager.HbaseManager.DeleteMessagesFromTopic | src/main/kotlin/HbaseManager.kt:36-61 | Returns the qualifier in both modes, whether or not the table exists. The one failure is disabling a table that is already disabled. The tables end as DeleteState says, and every cell's versions stay newest first. The calls are connect, tableExists, then (for an existing table only) disableTable, followed by deleteTable or truncateTable when the disable succeeded, and finally close. The connection is left closed. |

## Left out

- Logging in every file (`DataworksLogger`, `java.util.logging`). printableKey is modelled, but the log lines that use it are not.
- `HbaseConfig`: it reads environment variables into a Hadoop configuration. The column family, the column, the default data table and the per-topic switch are the fields of `Handler.Config`. `HbaseConfig.dataTable` is not part of this model.
- `Handler.handleRequest`: the Lambda entry point, which builds the collaborators.
- Handler.kt:30 calls `getQualifiedTableName` with one argument, but TableNameUtil.kt:8 takes two. The model passes the per-topic switch from `Config`.
- TableNameUtilTest.kt:46-52 expects an exception for `database.collection`. The code returns the default table, and the model follows the code.
- `hbaseConnection`, cluster I/O, `Consistency.TIMELINE`, and HBase versioning beyond "versions newest first, one pinned or the newest": time-to-live, maximum versions and delete markers are not modelled. A table's column families are a set of names, without their settings. The store is the map in `HbaseManager.HbaseManager`, and each exception is an error value.
- A Kotlin `Long` timestamp is an unbounded integer. It is only compared with zero and passed through.
- Klaxon internals. The reader follows the grammar of RFC 8259 and refuses anything after the value. Numbers are kept as the token that spelled them, so Klaxon's reformatting of numbers (`2.0` and the like) is not modelled. The writer escapes only the characters RFC 8259 requires (quote, backslash, control characters); any further escaping Klaxon may do is not modelled.
- `\u` escapes that leave a surrogate unpaired (a low surrogate on its own, or a high surrogate not followed by a `\u` low surrogate) are refused. RFC 8259 allows them, but a Dafny `char` is a Unicode scalar value and cannot hold one.
- Kotlin's `String.toByteArray()` and `String(ByteArray)` use `Charsets.UTF_8` unless told otherwise, whatever the JVM's default charset, so the source's conversions between bytes and text are UTF-8. A malformed UTF-8 sequence decodes to one U+FFFD per offending byte, which may differ from the JDK decoder's grouping of bad sequences.
- The table handle's own resources are represented only by its calls in the trace.
- Concurrency between invocations.
