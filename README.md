# gradle-josm-plugin: MO catalog writer and plugin settings, in Dafny

This project models two parts of the Gradle plugin for JOSM plugins.

The first is the gettext MO catalog encoder, `MoWriter.writeStream`. It takes a map from message identities (`MsgId`) to translations (`MsgStr`) and writes the binary layout of section 10.3 of the GNU gettext manual:

- the magic number in the chosen byte order;
- the six header words;
- the table of (length, offset) rows for the original strings, sorted by key;
- the same table for the translations;
- the NUL-terminated original strings;
- the NUL-terminated translation strings.

The model works in layers:

- The writer is a method that appends to a byte sequence, with one loop per `forEach`.
- It is proved equal to a specification of the layout (`MoLayout.Layout`).
- Every header word, table row and string of that layout is proved in place.
- A reference decoder reads the file back. The round trip that the read/write test asserts is proved for both byte orders, for valid catalogs (see `MoWriter.DecodeEncodeMo` under "Left out"): decoding gives the input map, and writing the decoded map again gives the same file.

The second part is the `josm { }` extension object, `JosmPluginExtension`. It holds:

- the default settings;
- the two counters whose setters refuse negative values;
- the JOSM-version check `useSeparateTmpJosmDirs`;
- the fix-up of the temporary directories after project evaluation.

Files:

- `wrappers.dfy`: `Option` and `Result`.
- `bytes.dfy`: bytes and unsigned 32-bit words, `FourBytes` in both byte orders, and join/split at a separator byte.
- `messages.dfy`: `MsgId` and `MsgStr` and their serialized bytes (`toByteArray`), with parsers that invert them.
- `mo_layout.dfy`: the byte layout of a written file, as a function of the serialized keys and values.
- `mo_decoder.dfy`: a reference MO decoder, and the proof that it reads every layout back.
- `mo_writer.dfy`: key order and sorting, `writeStream` as methods, and the properties of the written file.
- `plugin_config.dfy`: `toIntOrNull`, `useSeparateTmpJosmDirs` and the extension class.

## Model

| member | source | states |
|---|---|---|
| Bytes.FourBytes | src/main/kotlin/i18n/io/MoWriter.kt:47-48 | a word is written as exactly four bytes; `FourBytesRoundTrip` proves they decode back to it |
| Bytes.FourBytesRoundTrip | src/main/kotlin/i18n/io/MoWriter.kt:23-36 | the four bytes `FourBytes(v, be)` writes decode to `v` again in the same byte order |
| Bytes.ReadWrittenWord | src/main/kotlin/i18n/io/MoWriter.kt:47-48 | where the bytes of `FourBytes(v)` were written, reading a word gives `v` |
| Bytes.WordAt | src/main/kotlin/i18n/io/MoWriter.kt:23-36 | word k of a run of words occupies bytes [4k, 4k+4) and holds `FourBytes` of that word |
| Messages.MsgId.ToBytes | src/main/kotlin/i18n/io/MoWriter.kt:46 | the bytes of a valid key hold a 0x04 exactly when the key has a context; `ParseMsgIdInverse` proves they parse back to the key |
| Messages.MsgStr.ToBytes | src/main/kotlin/i18n/io/MoWriter.kt:54 | the bytes of a valid translation hold a 0x00 exactly when it has more than one variant; `ParseMsgStrInverse` proves they parse back to it |
| Messages.ParseMsgId | i18n/src/test/kotlin/org/openstreetmap/josm/gradle/plugin/i18n/io/I18nReadWriteTest.kt:35 | the identity read back from a key's bytes serializes to exactly those bytes |
| Messages.ParseMsgStr | i18n/src/test/kotlin/org/openstreetmap/josm/gradle/plugin/i18n/io/I18nReadWriteTest.kt:35 | the translation read back from a value's bytes is valid and serializes to exactly those bytes |
| Messages.ParseMsgIdInverse | i18n/src/test/kotlin/org/openstreetmap/josm/gradle/plugin/i18n/io/I18nReadWriteTest.kt:40 | parsing the bytes of a valid identity, with or without context, gives back that identity |
| Messages.ParseMsgStrInverse | i18n/src/test/kotlin/org/openstreetmap/josm/gradle/plugin/i18n/io/I18nReadWriteTest.kt:40 | parsing the bytes of a valid translation gives back that translation |
| Messages.MsgIdBytesInjective | src/main/kotlin/i18n/io/MoWriter.kt:15-16 | two valid identities with the same bytes are equal, so sorting by bytes never merges two keys |
| Messages.EmptyBytesIsMetadata | i18n/src/test/kotlin/org/openstreetmap/josm/gradle/plugin/i18n/io/I18nReadWriteTest.kt:56 | a valid identity serializes to no bytes exactly when it is the metadata key (one empty form, no context) |
| MoLayout.MagicBytes | src/main/kotlin/i18n/io/MoWriter.kt:13 | the four magic bytes read as 0x950412de in the byte order they were written for, big-endian or reversed |
| MoLayout.HeaderWords | src/main/kotlin/i18n/io/MoWriter.kt:23-36 | six words: revision 0, N, the key table at 28 right after the header, the value table 8N bytes later, hash-table size 0, and the hash-table offset another 8N bytes later |
| MoLayout.SpanStep | src/main/kotlin/i18n/io/MoWriter.kt:49 | each string moves the running offset on by its length plus one NUL |
| MoLayout.SpanMonotone | src/main/kotlin/i18n/io/MoWriter.kt:42-58 | the running offset never decreases |
| MoLayout.TableRow | src/main/kotlin/i18n/io/MoWriter.kt:45-50 | row i of a table is (length of string i, base plus the lengths and NULs of the strings before it) |
| MoLayout.Blob | src/main/kotlin/i18n/io/MoWriter.kt:61-64 | the strings with a NUL after each take exactly the bytes the offset counter reserved for them |
| MoLayout.BlobAt | src/main/kotlin/i18n/io/MoWriter.kt:61-70 | string i sits in the blob at its running offset and is followed by a single 0x00 |
| MoLayout.AllWords | src/main/kotlin/i18n/io/MoWriter.kt:18-58 | the file holds 6 header words and 2 words per key and per value |
| MoLayout.Layout | src/main/kotlin/i18n/io/MoWriter.kt:11-71 | the file length is 28 + 16N + the sum of (key length + 1) + the sum of (value length + 1) |
| MoLayout.LayoutMagic | src/main/kotlin/i18n/io/MoWriter.kt:13 | the first four bytes are `BE_MAGIC` for big-endian output and `BE_MAGIC` reversed otherwise |
| MoLayout.LayoutHeader | src/main/kotlin/i18n/io/MoWriter.kt:18-37 | magic plus header take exactly 28 bytes, and the header words read 0, N, 28, 28+8N, 0, 28+16N in the chosen byte order |
| MoLayout.LayoutWord | src/main/kotlin/i18n/io/MoWriter.kt:39-58 | word k of the header and tables can be read at byte 4 + 4k |
| MoLayout.LayoutKeyLength | src/main/kotlin/i18n/io/MoWriter.kt:46-47 | the first word of key row i is the length of key i |
| MoLayout.LayoutKeyOffset | src/main/kotlin/i18n/io/MoWriter.kt:48 | the second word of key row i is the key's running offset |
| MoLayout.KeyOffsetsChain | src/main/kotlin/i18n/io/MoWriter.kt:42-50 | key offset 0 is the hash-table offset 28+16N, and each next offset is the previous one plus the key length plus 1 |
| MoLayout.LayoutValueLength | src/main/kotlin/i18n/io/MoWriter.kt:54-55 | the first word of value row i is the length of the value of key i |
| MoLayout.LayoutValueOffset | src/main/kotlin/i18n/io/MoWriter.kt:56 | the second word of value row i is that value's running offset |
| MoLayout.ValueOffsetsChain | src/main/kotlin/i18n/io/MoWriter.kt:53-58 | the value offsets continue the same counter after the last key, each adding the value length plus 1 |
| MoLayout.LayoutKeyString | src/main/kotlin/i18n/io/MoWriter.kt:61-64 | the bytes at [offset, offset + length) of key row i are key i, followed by one 0x00 |
| MoLayout.LayoutValueString | src/main/kotlin/i18n/io/MoWriter.kt:66-70 | the bytes at [offset, offset + length) of value row i are value i, followed by one 0x00 |
| MoDecoder.ByteOrder | src/main/kotlin/i18n/io/MoWriter.kt:13 | a file is accepted only when it is at least 28 bytes long and starts with the magic in one of the two byte orders, and that magic gives the byte order |
| MoDecoder.ByteOrderOfMagic | src/main/kotlin/i18n/io/MoWriter.kt:13 | the magic written for a byte order is read back as that byte order |
| MoDecoder.ReadString | src/main/kotlin/i18n/io/MoWriter.kt:42-70 | a string read through table row i has the length that the row's first word gives |
| MoDecoder.ReadEntries | src/main/kotlin/i18n/io/MoWriter.kt:42-70 | reading n rows gives n entries or an error |
| MoDecoder.ToCatalog | i18n/src/test/kotlin/org/openstreetmap/josm/gradle/plugin/i18n/io/I18nReadWriteTest.kt:35 | the decoded map's keys are exactly the parsed keys of the entries |
| MoDecoder.DecodeMo | i18n/src/test/kotlin/org/openstreetmap/josm/gradle/plugin/i18n/io/I18nReadWriteTest.kt:35 | a file shorter than the header, or one without the magic in either byte order, is refused with the byte-order error |
| MoDecoder.LayoutHeaderReadsAs | src/main/kotlin/i18n/io/MoWriter.kt:18-37 | the decoder reads the written byte order, N and both table offsets from the header |
| MoDecoder.LayoutKeyReadsAs | src/main/kotlin/i18n/io/MoWriter.kt:42-64 | the decoder reads key i back through key row i |
| MoDecoder.LayoutValueReadsAs | src/main/kotlin/i18n/io/MoWriter.kt:53-70 | the decoder reads value i back through value row i |
| MoDecoder.DecodeLayout | src/main/kotlin/i18n/io/MoWriter.kt:11-71 | decoding any layout gives the map from the parsed keys to the parsed values, in both byte orders |
| MoWriter.OrderedKeysDiffer | src/main/kotlin/i18n/io/MoWriter.kt:15-16 | keys the comparator orders strictly have different bytes |
| MoWriter.LeastExists | src/main/kotlin/i18n/io/MoWriter.kt:15-16 | a non-empty key set under a strict total order has a least key |
| MoWriter.LeastUnique | src/main/kotlin/i18n/io/MoWriter.kt:15-16 | that least key is unique |
| MoWriter.SortedKeys | src/main/kotlin/i18n/io/MoWriter.kt:15-16 | the keys of the map, each exactly once, in strictly ascending comparator order |
| MoWriter.SortedKeysUnique | src/main/kotlin/i18n/io/MoWriter.kt:15-16 | any strictly ascending listing of the keys is that order, so equal maps give identical files |
| MoWriter.MetadataFirst | src/main/kotlin/i18n/io/MoWriter.kt:15-16 | when empty bytes sort first, the metadata key is first in the sorted order |
| MoWriter.EncodeMo | src/main/kotlin/i18n/io/MoWriter.kt:11-71 | the file written for a map holds at least the 28-byte header and 16 bytes of rows per entry; its header, rows and round trip are the lemmas below |
| MoWriter.TableStep | src/main/kotlin/i18n/io/MoWriter.kt:45-50 | writing one (numBytes, offset) pair extends the written table by the next row |
| MoWriter.RowStep | src/main/kotlin/i18n/io/MoWriter.kt:45-50 | after a row is written, `offset + numBytes + 1` is the running offset of the next row |
| MoWriter.StringStep | src/main/kotlin/i18n/io/MoWriter.kt:61-64 | writing a string and a 0x00 extends the written blob by the next string |
| MoWriter.WriteOffsets | src/main/kotlin/i18n/io/MoWriter.kt:42-58 | one `forEach` over the tables: appends one row per string and returns the running offset moved past all of them |
| MoWriter.WriteStrings | src/main/kotlin/i18n/io/MoWriter.kt:61-70 | one `forEach` over the strings: appends each string and a 0x00 |
| MoWriter.WriteSorted | src/main/kotlin/i18n/io/MoWriter.kt:18-70 | the header and the four loops, run over the sorted keys and values, write exactly the specified layout |
| MoWriter.WriteStream | src/main/kotlin/i18n/io/MoWriter.kt:11-71 | the bytes written for a map are the layout of its keys, in comparator order, and their translations |
| MoWriter.EncodeMoHeader | src/main/kotlin/i18n/io/MoWriter.kt:13-37 | the written file starts with the magic of its byte order, then the words 0, N, 28, 28+8N, 0, 28+16N, where N is the number of entries |
| MoWriter.EncodeMoMetadataFirst | src/main/kotlin/i18n/io/MoWriter.kt:15-16 | with the metadata key present and empty bytes sorting first, original-table row 0 holds the empty string |
| MoWriter.EncodeMoRows | src/main/kotlin/i18n/io/MoWriter.kt:53-58 | original-table row i and translation-table row i of the written file read back as key i, in comparator order, and that same key's translation |
| MoWriter.EmptyFirstRowIsMetadata | i18n/src/test/kotlin/org/openstreetmap/josm/gradle/plugin/i18n/io/I18nReadWriteTest.kt:56 | for a valid map, an empty first original string in the written file means the map holds the metadata key |
| MoWriter.CatalogOfAll | i18n/src/test/kotlin/org/openstreetmap/josm/gradle/plugin/i18n/io/I18nReadWriteTest.kt:40 | a listing of all keys of a map, with their values, rebuilds the map |
| MoWriter.ToCatalogOfSerialized | i18n/src/test/kotlin/org/openstreetmap/josm/gradle/plugin/i18n/io/I18nReadWriteTest.kt:35-40 | reading back the serialized rows of a valid map rebuilds its entries |
| MoWriter.DecodeEncodeMo | i18n/src/test/kotlin/org/openstreetmap/josm/gradle/plugin/i18n/io/I18nReadWriteTest.kt:31-40 | decoding the file written for a valid map gives the map back, in both byte orders |
| MoWriter.ReadWriteRead | i18n/src/test/kotlin/org/openstreetmap/josm/gradle/plugin/i18n/io/I18nReadWriteTest.kt:31-42 | the decoded map can be written again, that file is identical to the first one, and it decodes to the same map |
| PluginConfig.Digits | src/main/kotlin/config/JosmPluginExtension.kt:144 | the decimal digits of a number, as the `require` messages print it and `toIntOrNull` at line 364 reads it: at least one, all ASCII digits, no leading zero |
| PluginConfig.DecimalString | src/main/kotlin/config/JosmPluginExtension.kt:165 | an `Int` written in decimal, as in the `require` messages and for line 364, starts with '-' exactly when it is negative |
| PluginConfig.ToIntOrNull | src/main/kotlin/config/JosmPluginExtension.kt:364 | `toIntOrNull` accepts only a string that starts with a digit or a sign; a '-' gives a value ≤ 0, anything else a value ≥ 0 |
| PluginConfig.DigitsRoundTrip | src/main/kotlin/config/JosmPluginExtension.kt:364 | the digits of n have the value n |
| PluginConfig.ToIntOrNullDecimal | src/main/kotlin/config/JosmPluginExtension.kt:364 | every `Int` parses back from its decimal string |
| PluginConfig.ToIntOrNullPlus | src/main/kotlin/config/JosmPluginExtension.kt:364 | a leading '+' in front of a non-negative number is accepted and does not change its value |
| PluginConfig.UseSeparateTmpJosmDirs | src/main/kotlin/config/JosmPluginExtension.kt:364 | false exactly when the compile version is set and reads as an `Int` below 7841 |
| PluginConfig.SeparateDirsThreshold | src/main/kotlin/config/JosmPluginExtension.kt:364 | separate directories are used for a missing or non-numeric compile version, and for a numeric one exactly when it is at least 7841 |
| PluginConfig.Resolve | src/main/kotlin/config/JosmPluginExtension.kt:100 | `File(parent, child)` is the parent path, one '/', then the child path |
| PluginConfig.DefaultDirsDistinct | src/main/kotlin/config/JosmPluginExtension.kt:100-116 | the default preference, cache and user-data directories are three different paths |
| PluginConfig.RequireNonNegative | src/main/kotlin/config/JosmPluginExtension.kt:142-147 | a value passes exactly when it is non-negative and then passes unchanged; a refusal message names the property and ends with the value |
| PluginConfig.JosmPluginExtension.constructor | src/main/kotlin/config/JosmPluginExtension.kt:37-168 | the compile version is the project property; the four flags are true (`versionWithoutLeadingV` at line 359); the directories are `<buildDir>/.josm/pref`, `/cache` and `/userdata`; the three directories are distinct; the counters are 10 and 30 |
| PluginConfig.JosmPluginExtension.SetMaxPluginDependencyDepth | src/main/kotlin/config/JosmPluginExtension.kt:141-147 | a negative value fails with the `require` message and leaves the field unchanged; a value ≥ 0 is stored; no other field changes and both counters stay ≥ 0 |
| PluginConfig.JosmPluginExtension.SetJosmVersionFuzziness | src/main/kotlin/config/JosmPluginExtension.kt:162-168 | a negative value fails with the `require` message and leaves the field unchanged; a value ≥ 0 is stored; no other field changes and both counters stay ≥ 0 |
| PluginConfig.JosmPluginExtension.AfterEvaluate | src/main/kotlin/config/JosmPluginExtension.kt:118-126 | for a JOSM version that is too old, the cache becomes `<tmpJosmPrefDir>/cache` and the user data `tmpJosmPrefDir`; otherwise both are unchanged; no other field changes |

## Left out

- `MoReader` is not part of this model. The decoder in `mo_decoder.dfy` is a reference reader that follows section 10.3 of the GNU gettext manual. It reads the magic, N and the two table offsets, then each (length, offset) row and its bytes. It ignores the hashing table and the revision.
- The value of `BE_MAGIC`, 0x950412de most significant byte first, is taken from section 10.3 of the GNU gettext manual, because `MoReader.BE_MAGIC` is not part of this model.
- `MsgId`, `MsgStr` and `FourBytes` are not part of this model. They are modelled as follows:
  - a `MsgId` serializes as an optional context, then 0x04, then its forms joined by 0x00;
  - a `MsgStr` serializes as its variants joined by 0x00;
  - `FourBytes` is the 4-byte encoding of an unsigned word.
  - Text is kept as UTF-8 bytes; character decoding is not modelled.
- MoWriter.SortedKeys: the key comparator is modelled as an abstract strict total order on serialized key bytes.
  - The source decodes the key bytes to a `String` and compares UTF-16 code units. That order is not modelled concretely.
  - Two keys whose bytes decode to the same `String` (invalid UTF-8) would be merged by `toSortedMap`. The model requires the order to be strict on the keys, which excludes that case.
- MoWriter.WriteStream: requires the whole file to be smaller than 2^32 bytes (`FitsCatalog`). The source's `UInt` arithmetic would wrap around silently beyond that, and the wrapped file is not modelled.
- MoWriter.WriteStream: the `OutputStream` is modelled as the returned byte sequence. The work is split across three methods:
  - `WriteSorted` computes the header;
  - `WriteOffsets` runs the two table loops, sharing the running offset;
  - `WriteStrings` runs the two string loops.
- MoWriter.WriteSorted: the `require` at line 37 of `MoWriter.kt` is a proof obligation here (an `assert` that is proved), not a run-time check.
- MoWriter.DecodeEncodeMo: the round trip is proved only for valid catalogs (`ValidCatalog`): at least one form per key and one variant per translation, no 0x00 in any form or variant, no 0x04 in a context, and no 0x04 in the forms of a key without a context. For other catalogs the written bytes are split at those separators when read back, by this decoder and by a gettext reader alike, so the map read back can differ from the one written.
- MoWriter.EncodeMoMetadataFirst: holds under the stated assumption that the empty byte string sorts before every other key. `String.compareTo` gives that, but the assumption is stated rather than derived, because the comparator is abstract.
- The limit of 253 plural variants exists only in test data and is not modelled. `LangWriter` and `LangReader` (the `.lang` format) are not part of this model.
- PluginConfig.ToIntOrNull: accepts ASCII digits only. Kotlin's `toIntOrNull` also accepts other Unicode decimal digits. Its range check, made digit by digit, is modelled as one check on the final value, which accepts and refuses the same strings.
- `java.io.File` is modelled as its path string, with `File(parent, child)` as `parent + "/" + child`. Path normalisation and absolute paths are not modelled.
- PluginConfig.JosmPluginExtension.AfterEvaluate: the two warnings logged by the fix-up are not modelled. Gradle's `afterEvaluate` scheduling is modelled as an explicit call.
- Not part of this model:
  - the Gradle-facing parts of `JosmPluginExtension.kt`: `pluginName`, `josmConfigDir`, the repository, publish and `packIntoJarFileFilter` closures, and the `github`, `gitlab`, `i18n` and `manifest` configure methods;
  - the remaining settings, which have no logic;
  - the other files of the repository (Gradle tasks, release clients, dependency resolution).
