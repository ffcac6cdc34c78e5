# RegistryEx patch documents and .reg writers, in Dafny

This project models the core of RegistryEx, a .NET library for editing the Windows registry.
The model covers:

- **RegDocument**, a patch. It holds two collections:
  - `Erased`, the key paths whose whole tree is to be deleted;
  - `Created`, a dictionary of value dictionaries, one per key to set.

  Its operations are `DeleteKey`, `DeleteOldTree`, `CreateKey`, `Load`, `LoadRegistry`, `Merge`, `Revert`, `CreateRestorePoint`, `IsSuitable` and `WriteTo`.
- The two **Registration Entries (.reg) writers**:
  - the current one, which escapes text and writes lower-case hex on one line;
  - the legacy one in the RegistryHelper assembly, which writes upper-case hex, does no escaping, and wraps binary data every `BinaryWrapLength` bytes.
- The **RegistryValue** record: a payload and a kind, where kind `Unknown` is the tombstone meaning "delete this value".
- The two **RegistryHelper** classes:
  - the root-name table;
  - opening a key by its full path;
  - `KeyExists`;
  - `CheckValueInDB`;
  - the short-circuit loops `CheckSuitable` and `IsTODO`.
- **InternalUtils**: `Deconstruct` and `AddAll`.
- **Interop.Check**: the mapping from a Win32 error code to an exception.

Objects that the code changes in place are Dafny classes:

- `RegDocument` has an `erased` set and a `created` map.
- Each writer has a `text` field, which is everything written to its stream so far.
- `Dictionary` has an `entries` map, as used by `AddAll`.

Each method is proved against a function over the old state. The properties the code promises are proved about those functions:

- pruning on segment boundaries, and get-or-insert;
- replay of directives;
- "the other document wins" when merging, with identity, idempotence and associativity;
- the inverse patch built by `Revert`;
- a restore point being already in effect;
- escape round trips, and hex and UTF-16LE round trips;
- where the legacy writer breaks lines, and that joining its continuation lines gives the plain hex list.

An exception becomes a `Failure` value. When a writer fails, the text written before the throw stays in its `text`.

The live registry is a value of type `LiveRegistry.Store`: a tree of keys under each predefined root. It is passed to every operation that reads the registry. The .reg reader is also outside the model: its output is a sequence of `Directives.Directive` values.

## Model

| member | source | states |
|---|---|---|
| RegDocuments.RegDocument.constructor | RegistryEx/RegDocument.cs:15-17 | A new document has no erased paths and no created keys. |
| RegDocuments.RegDocument.Contents | RegistryEx/RegDocument.cs:15-17 | The document as a value: its Erased set and its Created map, over which every method's contract is stated. |
| RegDocuments.RegDocument.DeleteKey | RegistryEx/RegDocument.cs:19-44 | A path with no backslash, or whose first backslash is its last character, throws ArgumentException and changes nothing. Any other path is added to Erased, and Created loses exactly the keys under the path (see PrunedKeys). |
| RegDocuments.RegDocument.DeleteOldTree | RegistryEx/RegDocument.cs:46-49 | The path is added to Erased. Created is not pruned. |
| RegDocuments.RegDocument.CreateKey | RegistryEx/RegDocument.cs:51-58 | Get-or-insert: an empty dictionary is added only when the key has none. The key's dictionary is returned. No other entry and not Erased changes. |
| RegDocuments.RegDocument.Load | RegistryEx/RegDocument.cs:69-92 | The document after the call is the directives replayed in order by LoadAll. The failure is the first exception a directive raises. |
| RegDocuments.RegDocument.LoadRegistry | RegistryEx/RegDocument.cs:94-107 | Every key of the live tree at the given path, at every depth, gets its live values put over its dictionary in Created. Erased is unchanged. |
| RegDocuments.RegDocument.Merge | RegistryEx/RegDocument.cs:109-121 | The contents become MergeDocs of the old contents and other's. |
| RegDocuments.RegDocument.Revert | RegistryEx/RegDocument.cs:123-149 | The contents become RevertDoc of the old contents, the registry and other. |
| RegDocuments.RegDocument.LoadTrees | RegistryEx/RegDocument.cs:125-129 | Revert's first loop: the live trees of all of other's erased paths are loaded into Created. |
| RegDocuments.RegDocument.RevertKeys | RegistryEx/RegDocument.cs:130-148 | Revert's second loop: the keys that are missing live are added to Erased. Each key that opens gets its differing live values. |
| RegDocuments.RegDocument.PutAll | RegistryEx/RegDocument.cs:117-119 | Merge's inner loop: the key's dictionary becomes the old one overridden name by name by d. |
| RegDocuments.RegDocument.RevertValues | RegistryEx/RegDocument.cs:139-147 | Revert's inner loop: the key's dictionary gains exactly the names whose live value differs, each mapped to its live value. |
| RegDocuments.RegDocument.CreateRestorePoint | RegistryEx/RegDocument.cs:151-156 | The result is a new document: the registry-backed revert of this one into an empty document. It is already in effect (Suitable). |
| RegDocuments.RegDocument.IsSuitable | RegistryEx/RegDocument.cs:158-185 | The answer equals Suitable: every created key opens, and its documented values equal the live ones. An erased key that is also created has exactly the documented number of live values. Every other erased path is absent. |
| RegDocuments.RegDocument.WriteTo | RegistryEx/RegDocument.cs:206-230 | The output is DocumentText: the version line, then the erased paths, then each key's header and values, in enumeration order. Output stops at the first exception. |
| RegDocuments.WriteErased | RegistryEx/RegDocument.cs:210-213 | One deletion header per erased path, in order. |
| RegDocuments.WriteKeys | RegistryEx/RegDocument.cs:215-229 | Each key's header and its values, up to the first failure, which is returned. |
| RegDocuments.WriteValues | RegistryEx/RegDocument.cs:218-228 | One key's values in order, stopping at the first failure. |
| RegDocuments.WriteValue | RegistryEx/RegDocument.cs:220-227 | A tombstone is written with DeleteValue. Any other value is written with SetValue. |
| RegDocumentModel.UnderIff | RegistryEx/RegDocument.cs:32-40 | A key is under a path exactly when it equals the path or starts with the path followed by a backslash. |
| RegDocumentModel.SiblingNotUnder | RegistryEx/RegDocument.cs:36-37 | A key that continues the path with anything but a backslash (`name/foobar`, `nameBar`) is not under it. |
| RegDocumentModel.Pruned | RegistryEx/RegDocument.cs:29-43 | Pruning never adds a key. |
| RegDocumentModel.PrunedKeys | RegistryEx/RegDocument.cs:29-43 | A key survives DeleteKey exactly when it is neither the path nor starts with the path and a backslash. Survivors keep their dictionaries. |
| RegDocumentModel.PruneChildKeepSibling | RegistryEx/RegDocument.cs:29-43 | Of a child `name\child` and a sibling `name` + text not starting with a backslash, pruning removes only the child. |
| RegDocumentModel.DeleteKeyTestCase | Test/RegDocumentTest.cs:62-74 | The test's path is not a root path. Pruning it keeps only `HKEY_CURRENT_USER\_RH_Test_/foobar`. |
| RegDocumentModel.WithKey | RegistryEx/RegDocument.cs:51-58 | After CreateKey the key is present, and Created grows by that key alone. Existing entries are unchanged. A new key gets an empty dictionary. |
| RegDocumentModel.WithKeyPut | RegistryEx/RegDocument.cs:115-120 | CreateKey followed by setting entries is the key's existing (or empty) dictionary overridden by those entries. |
| RegDocumentModel.CreateKeyIdempotent | RegistryEx/RegDocument.cs:51-58 | A second CreateKey of the same name changes nothing, and Created grows by at most one key. |
| RegDocumentModel.Put | RegistryEx/RegDocument.cs:84-89 | Storing a value keeps the current key, Erased, and the invariant that the current dictionary is still in Created. |
| RegDocumentModel.LoadStep | RegistryEx/RegDocument.cs:74-91 | Every directive keeps that invariant, and none removes an erased path. |
| RegDocumentModel.LoadAll | RegistryEx/RegDocument.cs:69-92 | Replaying directives keeps the invariant, and Erased only grows. |
| RegDocumentModel.LoadValueStep | RegistryEx/RegDocument.cs:84-86 | A value directive sets its name in the dictionary of the most recent set-key directive. Other names and the key set are unchanged. |
| RegDocumentModel.LoadDeleteValueStep | RegistryEx/RegDocument.cs:87-89 | A delete-value directive keeps the name and stores the tombstone; it does not remove the name. |
| RegDocumentModel.LoadDeleteKeyStep | RegistryEx/RegDocument.cs:81-83 | A delete-key directive goes through DeleteKey: refused for a root path, otherwise the path is erased and Created pruned. A pruned current key stops receiving values. |
| RegDocumentModel.LoadErased | RegistryEx/RegDocument.cs:69-92 | A Load that completes adds to Erased exactly the paths of its delete-key directives. |
| RegDocumentModel.LoadValueWithoutKey | RegistryEx/RegDocument.cs:72-86 | A value directive before any key dereferences null: Load stops with NullReferenceException and the document is unchanged. |
| RegDocumentModel.MergeCreated | RegistryEx/RegDocument.cs:115-120 | The merged key set is the union of both key sets. |
| RegDocumentModel.MergeCreatedGet | RegistryEx/RegDocument.cs:115-120 | Each merged dictionary is this document's dictionary overridden name by name by other's. |
| RegDocumentModel.MergeCreatedAdd | RegistryEx/RegDocument.cs:115-120 | Visiting one more key of other updates just that key, by the override. |
| RegDocumentModel.MergeDocs | RegistryEx/RegDocument.cs:109-121 | After Merge, Erased is the union of both documents' sets, and the created keys are the union of both key sets. |
| RegDocumentModel.MergeOtherWins | RegistryEx/RegDocument.cs:109-121 | After Merge, other's values win, this document's other names and keys stay, and Erased is the union. |
| RegDocumentModel.MergeIdentity | RegistryEx/RegDocument.cs:109-121 | Merging with an empty document, on either side, changes nothing. |
| RegDocumentModel.MergeIdempotent | RegistryEx/RegDocument.cs:109-121 | Merging a document with itself changes nothing. |
| RegDocumentModel.MergeAssociativeAt | RegistryEx/RegDocument.cs:115-120 | The dictionaries of two merges in a row do not depend on grouping, key by key. |
| RegDocumentModel.MergeAssociative | RegistryEx/RegDocument.cs:109-121 | Merging three documents does not depend on grouping. |
| RegDocumentModel.ChildNamesAdd | RegistryEx/RegDocument.cs:96-100 | Visiting one more subkey adds the names of that subkey's whole tree. |
| RegDocumentModel.ChildNamesAll | RegistryEx/RegDocument.cs:94-102 | The keys LoadRegistry visits are those of every subkey tree plus the key itself. |
| RegDocumentModel.Loaded | RegistryEx/RegDocument.cs:102-106 | Loading a set of keys adds exactly those keys to Created. |
| RegDocumentModel.LoadedOne | RegistryEx/RegDocument.cs:102-106 | Loading one key puts its live values over its existing (or new) dictionary. |
| RegDocumentModel.LoadedUnion | RegistryEx/RegDocument.cs:94-107 | Loading one set of keys and then another is loading their union. |
| RegDocumentModel.LoadedAt | RegistryEx/RegDocument.cs:102-106 | After loading, a key is present iff it was created or loaded. Its dictionary gains the live values iff it was loaded. |
| RegDocumentModel.NamesOpen | RegistryEx/RegDocument.cs:96-99 | Every key LoadRegistry reaches below an opened key can be opened by its path. |
| RegDocumentModel.ErasedNamesAdd | RegistryEx/RegDocument.cs:125-129 | One more erased path adds the names of its live tree. |
| RegDocumentModel.Differing | RegistryEx/RegDocument.cs:140-147 | A name is kept iff its documented value differs from the live one (the tombstone when absent), and it maps to the live value. |
| RegDocumentModel.DifferingAdd | RegistryEx/RegDocument.cs:140-147 | Comparing one more name adds it, with its live value, exactly when it differs. |
| RegDocumentModel.RevertCreated | RegistryEx/RegDocument.cs:130-148 | Revert's created keys are the loaded ones plus every key of other that opens. |
| RegDocumentModel.RevertCreatedAdd | RegistryEx/RegDocument.cs:130-148 | Visiting one more key of other: a missing key changes nothing in Created, and a key that opens gains its differing values. |
| RegDocumentModel.RevertDoc | RegistryEx/RegDocument.cs:123-149 | Revert only adds: the old Erased and keys stay. The newly erased paths are keys of other, and each key of other ends up erased or created. |
| RegDocumentModel.MissingAdd | RegistryEx/RegDocument.cs:133-137 | Visiting one more key of other adds it to the deleted keys exactly when it does not open. |
| RegDocumentModel.RevertKeyEntry | RegistryEx/RegDocument.cs:130-148 | A key of other missing live is only erased. One that opens is created and holds each differing name with its live value. When nothing else loaded it, it holds exactly those names. |
| RegDocumentModel.KeyMatches | RegistryEx/RegDocument.cs:161-180 | A created key is in effect only if it exists. |
| RegDocumentModel.Suitable | RegistryEx/RegDocument.cs:158-185 | A suitable document's created keys all exist. A document with no created keys is suitable iff none of its erased paths exists. |
| RegDocumentModel.EmptySuitable | RegistryEx/RegDocument.cs:158-185 | An empty document is suitable. |
| RegDocumentModel.RestorePointSuitable | RegistryEx/RegDocument.cs:151-156 | A restore point of any document, in a well-formed registry, is suitable: applying it would change nothing. |
| RegDocumentText.ValueOutputs | RegistryEx/RegDocument.cs:218-228 | One output per name, in order, each the text of writing that name's entry. |
| RegDocumentText.ValueText | RegistryEx/RegDocument.cs:220-227 | A tombstone or a well-formed value is written without failure. Every value written completely ends in CRLF. |
| RegDocumentText.KeysText | RegistryEx/RegDocument.cs:215-229 | When writing the keys completes, every key's values were written completely. |
| RegDocumentText.DocumentText | RegistryEx/RegDocument.cs:206-230 | The output always starts with the version line and then every deletion header, even when a value later fails. |
| RegDocumentText.KeysTextStep | RegistryEx/RegDocument.cs:215-229 | One more key appends its header and its values' text. |
| RegDocumentText.ErasedTextAppend | RegistryEx/RegDocument.cs:210-213 | The deletion headers of two lists of paths are the concatenation of each list's headers. |
| RegDocumentText.ConcatStops | RegistryEx/RegDocument.cs:218-228 | Once a value fails, nothing after it is written. |
| RegDocumentText.KeysTextStops | RegistryEx/RegDocument.cs:215-229 | Once a key's values fail, no later key is written. |
| RegDocumentText.ConcatFails | RegistryEx/RegDocument.cs:218-228 | The values fail iff one of them fails. |
| RegDocumentText.ValuesTextFails | RegistryEx/RegDocument.cs:218-228 | A key's values fail iff writing one of its entries fails. |
| RegDocumentText.ValuesWrittenCleanly | RegistryEx/RegDocument.cs:218-228 | When every entry is a tombstone or well formed, a key's values are written without failure. |
| RegDocumentText.DocumentWrittenCleanly | RegistryEx/RegDocument.cs:206-230 | When every entry is a tombstone or well formed, WriteTo completes. |
| RegText.DeleteKeyText | RegistryEx/RegFileWriter.cs:32-38 | A deletion header is an empty line, `[-`, the path unchanged, `]` and CRLF. |
| RegText.SetKeyText | RegistryEx/RegFileWriter.cs:40-46 | A key header is an empty line, `[`, the path unchanged, `]` and CRLF. |
| RegWriter.Escaped | RegistryEx/RegFileWriter.cs:131-146 | Escaping adds exactly one character per `"` and `\`. Text with neither is unchanged. |
| RegWriter.EscapedAppend | RegistryEx/RegFileWriter.cs:131-146 | Escaping distributes over concatenation. |
| RegWriter.UnescapeEscaped | RegistryEx/RegFileWriter.cs:131-146 | Removing the inserted backslashes recovers the input. |
| RegWriter.QuotedReadsBack | RegistryEx/RegFileWriter.cs:131-146 | A written string is the input's length plus the escapable count plus 2. It is enclosed in quotes, and what is between them unescapes to the input. |
| RegWriter.IndexOfAny | RegistryEx/RegFileWriter.cs:134-142 | The result is the first `"` or `\` at or after the start, or -1 when there is none. |
| RegWriter.EscapedStretch | RegistryEx/RegFileWriter.cs:137-144 | WriteString's loop invariant: the text written so far, plus the pending backslash and the plain stretch, is the escaping of the prefix. |
| RegWriter.NameText | RegistryEx/RegFileWriter.cs:119-129 | The name is `@` iff it is empty. Otherwise it is the quoted, escaped name. |
| RegWriter.BinaryLine | RegistryEx/RegFileWriter.cs:173-179 | An empty array is written as CRLF alone. |
| RegWriter.HexWithCommas | RegistryEx/RegFileWriter.cs:182-186 | Each byte before the last takes three characters. |
| RegWriter.HexWithCommasSnoc | RegistryEx/RegFileWriter.cs:182-186 | One more loop round appends the byte's two lower-case digits and a comma. |
| RegWriter.HexListSplitLast | RegistryEx/RegFileWriter.cs:181-187 | The comma-separated list is the loop's text followed by the last byte without a comma. |
| RegWriter.JoinEntriesSnoc | RegistryEx/RegFileWriter.cs:151-158 | One more entry appends it and a NUL, or nothing when it is empty. |
| RegWriter.MultiStringText | RegistryEx/RegFileWriter.cs:148-160 | The joined text always ends in the final NUL. |
| RegWriter.KeptEntries | RegistryEx/RegFileWriter.cs:153-156 | Empty entries are skipped, so no kept entry is empty. |
| RegWriter.ReadMultiString | RegistryEx/RegFileWriter.cs:148-160 | Splitting the joined text at its NULs gives back the non-empty entries, in order. |
| RegWriter.ToInt32 | RegistryEx/RegFileWriter.cs:88 | Convert.ToInt32: an int is itself, null is 0, and an array throws InvalidCastException. |
| RegWriter.ToInt64 | RegistryEx/RegFileWriter.cs:112 | Convert.ToInt64: a long is itself, an int widens, null is 0, and an array throws InvalidCastException. |
| RegWriter.BytesData | RegistryEx/RegFileWriter.cs:94-101 | Binary and None data succeed iff the payload is a byte array. |
| RegWriter.DWordData | RegistryEx/RegFileWriter.cs:86-89 | DWord data succeeds iff Convert.ToInt32 does. |
| RegWriter.StringData | RegistryEx/RegFileWriter.cs:90-93 | String data succeeds iff the payload is a string. |
| RegWriter.ExpandStringData | RegistryEx/RegFileWriter.cs:102-105 | ExpandString data succeeds iff the payload is a string. |
| RegWriter.MultiStringData | RegistryEx/RegFileWriter.cs:106-109 | MultiString data succeeds iff the payload is a string list. |
| RegWriter.QWordData | RegistryEx/RegFileWriter.cs:110-113 | QWord data succeeds iff Convert.ToInt64 does. |
| RegWriter.ValidValueWritten | RegistryEx/RegFileWriter.cs:79-117 | A well-formed value other than a tombstone is written without failure and ends in CRLF. |
| RegWriter.UnknownKindRejected | RegistryEx/RegFileWriter.cs:79-117 | Kind Unknown throws ArgumentException after the name and `=` have been written. |
| RegWriter.DWordText | RegistryEx/RegFileWriter.cs:86-89 | A DWord is `name=dword:` and 8 lower-case hex digits, then CRLF. The digits read back as the 32-bit two's-complement value. |
| RegWriter.HexValueText | RegistryEx/RegFileWriter.cs:173-188 | Hex data is the tag, then the comma-separated lower-case list, then CRLF. |
| RegWriter.ValueData | RegistryEx/RegFileWriter.cs:84-116 | Kind Unknown throws ArgumentException. A well-formed value of any other kind is written without failure. Successful data ends in CRLF. |
| RegWriter.SetValueOutput | RegistryEx/RegFileWriter.cs:79-117 | What SetValue writes: the name and `=` come first, even when the data then fails. Successful output ends in CRLF. |
| RegWriter.DeleteValueOutput | RegistryEx/RegFileWriter.cs:48-52 | What DeleteValue writes ends in `=-` CRLF. |
| RegWriter.ExpandStringReadsBack | RegistryEx/RegFileWriter.cs:102-105 | `hex(2):` data reads back as bytes that decode from UTF-16LE to the string. No terminator is added. |
| RegWriter.QWordReadsBack | RegistryEx/RegFileWriter.cs:110-113 | `hex(b):` data is 8 bytes (23 characters) that read back little-endian as the long. |
| RegWriter.MultiStringReadsBack | RegistryEx/RegFileWriter.cs:106-109 | `hex(7):` data decodes to text whose NUL-separated entries are the non-empty inputs. |
| RegWriter.MultiStringHexReadsBack | RegistryEx/RegFileWriter.cs:148-165 | The joined entries' UTF-16LE bytes survive the hex list and decoding. |
| RegWriter.RegFileWriter.constructor | RegistryEx/RegFileWriter.cs:20-25 | A new writer has written the version line and CRLF. |
| RegWriter.RegFileWriter.Write | RegistryEx/RegFileWriter.cs:87 | TextWriter.Write appends its text to the output. |
| RegWriter.RegFileWriter.WriteLine | RegistryEx/RegFileWriter.cs:88 | TextWriter.WriteLine appends its text and the writer's CRLF newline. |
| RegWriter.RegFileWriter.DeleteKey | RegistryEx/RegFileWriter.cs:32-38 | Appends CRLF, `[-path]`, CRLF. |
| RegWriter.RegFileWriter.SetKey | RegistryEx/RegFileWriter.cs:40-46 | Appends CRLF, `[path]`, CRLF. |
| RegWriter.RegFileWriter.DeleteValue | RegistryEx/RegFileWriter.cs:48-52 | Appends the name, `=-` and CRLF. |
| RegWriter.RegFileWriter.SetValue | RegistryEx/RegFileWriter.cs:79-117 | Appends the name, `=`, and the kind's data. The failure is the data's. |
| RegWriter.RegFileWriter.WriteData | RegistryEx/RegFileWriter.cs:84-116 | The kind switch: the data of the payload as that kind, or ArgumentException. |
| RegWriter.RegFileWriter.WriteDWord | RegistryEx/RegFileWriter.cs:86-89 | Appends DWordData. |
| RegWriter.RegFileWriter.WriteStringValue | RegistryEx/RegFileWriter.cs:90-93 | Appends StringData. |
| RegWriter.RegFileWriter.WriteBytes | RegistryEx/RegFileWriter.cs:94-101 | Appends BytesData after its tag. |
| RegWriter.RegFileWriter.WriteExpandString | RegistryEx/RegFileWriter.cs:102-105 | Appends ExpandStringData. |
| RegWriter.RegFileWriter.WriteMultiString | RegistryEx/RegFileWriter.cs:106-109 | Appends MultiStringData. |
| RegWriter.RegFileWriter.WriteQWord | RegistryEx/RegFileWriter.cs:110-113 | Appends QWordData. |
| RegWriter.RegFileWriter.WriteName | RegistryEx/RegFileWriter.cs:119-129 | Appends `@` for the empty name, and the quoted, escaped name otherwise. |
| RegWriter.RegFileWriter.WriteString | RegistryEx/RegFileWriter.cs:131-146 | Appends the value quoted, with a backslash before every `"` and `\`. |
| RegWriter.RegFileWriter.WriteBinaryLineStrings | RegistryEx/RegFileWriter.cs:148-160 | Appends the hex line of the UTF-16LE bytes of the non-empty entries, each followed by NUL, and a final NUL. |
| RegWriter.RegFileWriter.WriteBinaryLineString | RegistryEx/RegFileWriter.cs:162-165 | Appends the hex line of the string's UTF-16LE bytes. |
| RegWriter.RegFileWriter.WriteBinaryLine | RegistryEx/RegFileWriter.cs:172-188 | Appends the bytes as lower-case hex pairs joined by commas, then CRLF, on one line. An empty array appends only CRLF. |
| LegacyRegWriter.ObjectText | RegistryHelper/RegFileWriter.cs:91 | TextWriter.Write(object): a string as it is, and nothing for null. |
| LegacyRegWriter.NameText | RegistryHelper/RegFileWriter.cs:78-85 | The name is `@=` iff it is empty. Every name part ends in `=`. |
| LegacyRegWriter.BinaryText | RegistryHelper/RegFileWriter.cs:139-158 | What WriteBinary writes. Dropping its line continuations leaves the upper-case hex list, with a comma after every byte but the last. |
| LegacyRegWriter.NoWrapWhenShort | RegistryHelper/RegFileWriter.cs:139-158 | With a wrap length no smaller than the array, or a negative one, nothing wraps. |
| LegacyRegWriter.NoWrapPrefix | RegistryHelper/RegFileWriter.cs:143-157 | Without wrapping, the first n rounds write the hex list of the first n bytes, and a comma when more follow. |
| LegacyRegWriter.DefaultWrapPoints | RegistryHelper/RegFileWriter.cs:10 | With the default length 21, lines break after the bytes at indices 21, 42, … and nowhere else. |
| LegacyRegWriter.WrapIndexTest | RegistryHelper/RegFileWriter.cs:152-156 | While wrapIndex tracks the next break, `i == wrapIndex` holds exactly at the indices where the line breaks. |
| LegacyRegWriter.WrapIndexStep | RegistryHelper/RegFileWriter.cs:152-156 | Advancing wrapIndex by the wrap length after a break keeps it on the next break. |
| LegacyRegWriter.ValueData | RegistryHelper/RegFileWriter.cs:87-118 | Every successful value ends in CRLF. A binary value whose last byte sits at a wrap index ends in a continuation and then that CRLF (see BinaryValueEnding). |
| LegacyRegWriter.SetValueAccepts | RegistryHelper/RegFileWriter.cs:87-116 | SetValue succeeds exactly for String (any payload), ExpandString and MultiString with a string, Binary with bytes, DWord with an int and QWord with a long. None, Unknown and everything else throw. |
| LegacyRegWriter.SetValueOutput | RegistryHelper/RegFileWriter.cs:76-119 | What SetValue writes: it always starts with the name part, and a successful call ends in CRLF. |
| LegacyRegWriter.BinaryValueEnding | RegistryHelper/RegFileWriter.cs:139-158 | Binary data ends in `\` CRLF CRLF, an empty line, exactly when its last index is a wrap point. Otherwise it ends in hex digits and one CRLF. |
| LegacyRegWriter.DefaultWrapDoubleBreak | RegistryHelper/RegFileWriter.cs:152-156 | With the default length 21, a 22-byte value ends in `\` CRLF CRLF. |
| LegacyRegWriter.DeleteValueOutput | RegistryHelper/RegFileWriter.cs:43-54 | What DeleteValue writes always ends in CRLF, and for a named value in `-` CRLF. |
| LegacyRegWriter.DWordText | RegistryHelper/RegFileWriter.cs:102-104 | A DWord is the name, `dword:` and 8 upper-case hex digits, then CRLF. The digits read back as the value. |
| LegacyRegWriter.StringText | RegistryHelper/RegFileWriter.cs:89-93 | A string value is `"name"="value"` and CRLF, with no escaping. |
| LegacyRegWriter.DeleteDefaultSetsEmpty | RegistryHelper/RegFileWriter.cs:45-48 | Deleting the default value writes exactly what setting it to the empty string writes. |
| LegacyRegWriter.DeleteNamedValue | RegistryHelper/RegFileWriter.cs:49-53 | Deleting a named value writes `"name"=-` and CRLF. |
| LegacyRegWriter.RegFileWriter.constructor | RegistryHelper/RegFileWriter.cs:10-19 | A new writer has written the version line, and its wrap length is 21. |
| LegacyRegWriter.RegFileWriter.Write | RegistryHelper/RegFileWriter.cs:30 | TextWriter.Write appends its text and leaves the wrap length alone. |
| LegacyRegWriter.RegFileWriter.WriteLine | RegistryHelper/RegFileWriter.cs:17 | TextWriter.WriteLine appends its text and the CRLF the constructor sets as NewLine. |
| LegacyRegWriter.RegFileWriter.Dispose | RegistryHelper/RegFileWriter.cs:21-25 | Appends one CRLF. |
| LegacyRegWriter.RegFileWriter.DeleteKey | RegistryHelper/RegFileWriter.cs:27-33 | Appends CRLF, `[-path]`, CRLF. |
| LegacyRegWriter.RegFileWriter.SetKey | RegistryHelper/RegFileWriter.cs:35-41 | Appends CRLF, `[path]`, CRLF. |
| LegacyRegWriter.RegFileWriter.DeleteValue | RegistryHelper/RegFileWriter.cs:43-54 | Appends `@=""` for the default value, and `"name"=-` otherwise, then CRLF. |
| LegacyRegWriter.RegFileWriter.WriteValueName | RegistryHelper/RegFileWriter.cs:121-127 | Appends the name in quotes, unescaped, and `=`. |
| LegacyRegWriter.RegFileWriter.SetValue | RegistryHelper/RegFileWriter.cs:76-119 | Appends SetValueOutput for the current wrap length, and reports its failure. The wrap length is unchanged. |
| LegacyRegWriter.RegFileWriter.WriteData | RegistryHelper/RegFileWriter.cs:87-118 | The kind switch and the closing CRLF. |
| LegacyRegWriter.RegFileWriter.WriteBytes | RegistryHelper/RegFileWriter.cs:98-101 | Appends the tag, then the wrapped hex and CRLF. A null array writes the tag and throws NullReferenceException. |
| LegacyRegWriter.RegFileWriter.WriteEncoded | RegistryHelper/RegFileWriter.cs:129-132 | Appends the tag and the wrapped hex of the string's UTF-16LE bytes. A null string throws ArgumentNullException and another payload InvalidCastException. |
| LegacyRegWriter.RegFileWriter.WriteByte | RegistryHelper/RegFileWriter.cs:145-156 | One loop round: two upper-case digits, a comma unless last, and `\` CRLF when the line wraps here. |
| LegacyRegWriter.RegFileWriter.WriteBinary | RegistryHelper/RegFileWriter.cs:139-158 | Appends BinaryText: the bytes with a break after each wrap index. |
| RegistryValues.RegistryValue.IsDelete | RegistryEx/RegistryValue.cs:9 | Among well-formed values, IsDelete holds exactly for DELETED. |
| RegistryValues.KindsDistinguish | RegistryEx/RegistryValue.cs:5-7 | Values of different kinds are never equal, whatever their payloads, and at most one is a tombstone. |
| RegistryValues.SamplesDistinct | Test/RegistryValueTest.cs:6-19 | The tests' values are pairwise different, equal when built alike, and each is well formed. |
| RegistryValues.MismatchedPayloadsInvalid | Test/RegistryValueTest.cs:21-32 | The payload/kind pairs the tests expect to be refused are not well formed. |
| RegistryHelper.BaseKeySpellings | RegistryEx/RegistryHelper.cs:42-51 | A name denotes a root iff, upper-cased, it is the root's full name or its abbreviation. HKEY_PERFORMANCE_DATA has no abbreviation. |
| RegistryHelper.GetBaseKey | RegistryEx/RegistryHelper.cs:42-51 | A name found as a root is, upper-cased, that root's full name or its abbreviation. |
| RegistryHelper.BaseKeyIgnoresCase | RegistryEx/RegistryHelper.cs:42 | Names that upper-case alike denote the same root, or none. |
| RegistryHelper.RootNameIsBaseKey | RegistryEx/RegistryHelper.cs:44-49 | Every root's full name denotes that root. |
| RegistryHelper.OpenKey | RegistryEx/RegistryHelper.cs:21-40 | A path with no backslash opens the root it names, or nothing. |
| RegistryHelper.OpenKeyAt | RegistryEx/RegistryHelper.cs:24-39 | With a backslash, the text before the first one names the root, and the text after it is opened below that root. |
| RegistryHelper.KeyExists | RegistryEx/RegistryHelper.cs:56-70 | KeyExists holds exactly when OpenKey opens the path. |
| RegistryHelper.OpenChild | RegistryEx/RegistryHelper.cs:21-40 | Appending a backslash and a subkey's name to an opened path opens that subkey. |
| RegistryHelper.ReopenByName | RegistryEx/RegistryHelper.cs:21-40 | Opening the name of an opened key opens the same key. |
| RegistryHelper.CheckValueInDB | RegistryEx/RegistryHelper.cs:105-126 | A missing key throws NullReferenceException, and None and Unknown throw. MultiString and Binary hold iff the live value is an array of that type, equal element by element. |
| RegistryHelper.CheckValueMeansEqual | RegistryEx/RegistryHelper.cs:119-125 | For a well-formed documented value, the check holds iff the live value equals it. A byte array matches only as Binary. |
| RegistryHelper.DirectiveHolds | RegistryEx/RegistryHelper.cs:79-92 | A key directive holds iff IsDelete XOR the key exists. A delete-value directive holds iff Registry.GetValue reads null. |
| RegistryHelper.SuitableIffAllHold | RegistryEx/RegistryHelper.cs:72-96 | CheckSuitable answers true iff every directive holds. Empty input answers true. |
| RegistryHelper.StopsAtFirstUnsatisfied | RegistryEx/RegistryHelper.cs:77-93 | An unsatisfied directive after satisfied ones answers false, whatever follows it. |
| RegistryHelper.Suitability | RegistryEx/RegistryHelper.cs:72-96 | When CheckSuitable's answer is true, every directive held. |
| RegistryHelper.CheckSuitable | RegistryEx/RegistryHelper.cs:72-96 | The loop's result equals Suitability of the directives. |
| LegacyRegistryHelper.IsTodo | RegistryHelper/RegistryHelper.cs:73-97 | The same short-circuit loop, answering the negation of Suitability. An exception is passed through. |
| LegacyRegistryHelper.TodoIffSomeDirectivePending | RegistryHelper/RegistryHelper.cs:73-97 | IsTODO is true iff some directive is not already in effect. |
| LiveRegistry.Segments | RegistryEx/RegistryHelper.cs:37-38 | A subkey path names only non-empty levels without backslashes. |
| LiveRegistry.OpenSubKey | RegistryEx/RegistryHelper.cs:38 | OpenSubKey opens iff walking the path's levels from the root succeeds, and gives the key reached. |
| LiveRegistry.OpenSubKeySnoc | RegistryEx/RegDocument.cs:96-99 | A subkey of an opened key opens by the key's path, a backslash and its name. |
| LiveRegistry.GetValue | RegistryEx/RegistryHelper.cs:108 | An absent value reads as null. |
| LiveRegistry.From | RegistryEx/RegDocument.cs:105 | The live value with its kind, or DELETED when the key has no value of that name. |
| LiveRegistry.UpperAscii | RegistryEx/RegistryHelper.cs:42 | Upper-casing maps `a`-`z` to `A`-`Z` and keeps every other character and the length. |
| LiveRegistry.RegistryGetValue | RegistryEx/RegistryHelper.cs:86 | Registry.GetValue fails only with ArgumentException, when the root is not spelled out in full. |
| LiveRegistry.GetValueByRootName | RegistryEx/RegistryHelper.cs:86 | Under a root's full name, Registry.GetValue reads the value below that root, or null. |
| LiveRegistry.FullRootName | RegistryEx/RegistryHelper.cs:86 | A base name Registry.GetValue accepts is the full name of the root it denotes. |
| LiveRegistry.ReadValue | RegistryEx/RegistryHelper.cs:86 | Below a root that is spelled out, Registry.GetValue never throws. A missing key reads as null. |
| Interop.Check | RegistryEx/Interop.cs:145-167 | Returns normally iff the code is 0. 6704 raises InvalidOperationException; 1018 and 32 raise IOException; 5 and 1314 raise UnauthorizedAccessException; anything else raises Win32Exception. |
| Interop.OtherCodesAreWin32 | RegistryEx/Interop.cs:157-165 | Code 6 and every code outside the table raise Win32Exception. |
| Interop.CheckResult | RegistryEx/Interop.cs:124-130 | Check(true) does nothing. Check(false) is Check of the last Win32 error, so it raises that code's exception, and fails iff the error is not 0. |
| InternalUtils.Deconstruct | RegistryEx/InternalUtils.cs:13-20 | Returns the pair's key and value unchanged. |
| InternalUtils.Dictionary.Add | RegistryEx/InternalUtils.cs:27 | A key already present throws ArgumentException and changes nothing. Otherwise the pair is added. |
| InternalUtils.AddAllKeepsFirst | RegistryEx/InternalUtils.cs:26-27 | Entries of first are never overwritten. |
| InternalUtils.AddAllDisjoint | RegistryEx/InternalUtils.cs:22-28 | With no key of second in first, AddAll completes. Every pair of second is in first, the old entries are kept, and nothing else is added. |
| InternalUtils.AddAllClash | RegistryEx/InternalUtils.cs:26-27 | A key of second already in first throws at that pair. The pairs before it stay inserted, and the clashing entry keeps its old value. |
| InternalUtils.AddAll | RegistryEx/InternalUtils.cs:22-28 | The dictionary and failure after the loop are AddAllSpec of the old entries and second's pairs. |
| Hex.Hex8 | RegistryEx/RegFileWriter.cs:88 | `ToString("x8")`: exactly 8 hex digits of the requested case, spelling the 32-bit two's-complement pattern. |
| Hex.Hex8RoundTrip | RegistryEx/RegFileWriter.cs:88 | The 8 digits read back as the int. |
| Hex.Hex2 | RegistryEx/RegFileWriter.cs:184 | `ToString("x2")`: exactly two digits that read back as the byte. |
| Hex.HexList | RegistryEx/RegFileWriter.cs:181-187 | n bytes take 3n-1 characters, none of them a backslash or a line break. |
| Hex.HexListRoundTrip | RegistryEx/RegFileWriter.cs:181-187 | The comma-separated list reads back as the bytes. |
| Numerics.Signed32Unsigned32 | RegistryEx/RegFileWriter.cs:88 | The 32-bit two's-complement pattern of an int reads back as the int. |
| Numerics.LittleEndianRoundTrip | RegistryEx/RegFileWriter.cs:169 | n little-endian bytes of a number that fits in them read back as the number. |
| Numerics.LongBytes | RegistryEx/RegFileWriter.cs:167-170 | BitConverter.GetBytes(long) gives 8 bytes that read back, little-endian and signed, as the long. |
| Utf16.CodeUnits | RegistryEx/RegFileWriter.cs:164 | A scalar value below 0x10000 is one unit that is not a surrogate. Any other value is a high and a low surrogate, as in section 2.1 of RFC 2781. |
| Utf16.EncodeLE | RegistryEx/RegFileWriter.cs:164 | Encoding.Unicode.GetBytes takes two to four bytes per character, with no byte-order mark. |
| Utf16.DecodeEncode | RegistryEx/RegFileWriter.cs:162-165 | Decoding the UTF-16LE bytes of a string gives the string back. |
| Decimal.DecimalText | RegistryHelper/RegFileWriter.cs:91 | An integer's ToString() is digits, with a leading minus sign when negative. |
| Decimal.DecimalRoundTrip | RegistryHelper/RegFileWriter.cs:91 | Parsing an integer's ToString() text gives the integer back. |
| Strings.IndexOf | RegistryEx/RegistryHelper.cs:24 | IndexOf is -1 iff the character is absent. Otherwise it is the first occurrence. |

## Left out

- Registry access is a snapshot: the `Store` tree is passed in. Handles, `RegistryKey` disposal, write access, transactions, security sessions, hive loading and the P/Invoke declarations are not part of this model.
- Root names are upper-cased on ASCII letters only. Culture-specific case mappings are not modelled.
- Key lookup below a root, keys in `Created`, and value names (in `LiveRegistry.GetValue`, `LiveRegistry.From`, and so in `IsSuitable`, `Revert` and `CheckValueInDB`) are case-sensitive. The registry compares key and value names case-insensitively; the model does not, so a document that spells a name in another case than the live registry is judged differently.
- Runs of backslashes and a trailing backslash in a subkey path name no level, as RegistryKey.FixupName treats them. Its other rewritings, and its length limits, are not modelled.
- `DeleteKey` tests a prefix with an ordinal comparison. The code calls `StartsWith(string)`, which compares by the current culture.
- The .reg reader is not part of this model. `Load`, `CheckSuitable` and `IsTODO` take the directives it would produce. `RegDocument.ParseFile` and `IsTODO`'s file reading are file I/O and are left out.
- `RegDocument.Import` has an empty body and `Normalize` is an unused identity function, so neither is modelled.
- Enumeration order of `HashSet` and `Dictionary` is a parameter. `WriteTo` takes the orders of Erased, of Created and of each dictionary. The set loops of `LoadRegistry`, `Merge`, `Revert` and `IsSuitable` choose elements arbitrarily. Their results do not depend on the order.
- Dictionaries are values: the dictionary `CreateKey` returns is identified by its key's name. `RegistryValue` equality is structural, so byte and string arrays compare by contents, as the tests expect.
- RegDocuments.RegDocument.Revert: requires `other != this`, and that every erased path of `other` opens. For a missing path the code dereferences null. Reverting a document into itself is not modelled.
- RegDocuments.RegDocument.CreateRestorePoint: requires a well-formed registry and that every erased path opens, for the same reason.
- `RegistryValue.From` is defined outside the selected files. It is modelled as the live value with its kind, or `DELETED` when the name is absent.
- Payloads are null, string, int, long, byte[] and string[] only. Other .NET objects, and Convert's handling of them, are not modelled. `Convert.ToInt32` and `Convert.ToInt64` parse text with the invariant format, without thousands separators or culture rules.
- Strings are sequences of Unicode scalar values. Lone surrogates, and their replacement by UTF-16 encoding, are not modelled.
- LegacyRegWriter.RegFileWriter.WriteBinary: `wrapIndex += BinaryWrapLength` is modelled with unbounded integers. The 32-bit wrap-around for wrap lengths near `int.MaxValue` is not modelled.
- The legacy MultiString path expects one pre-joined string and writes its UTF-16LE bytes as is. The model does the same and adds no NUL.
- Stream mechanics are not modelled: a writer's output is the text it has written, before encoding. The UTF-16LE byte-order mark of the stream and the stream's disposal are left out. The current writer's `Dispose` only closes the stream, so it writes nothing.
- The following are methods of their own in the model, each one loop or one loop body of the code: `LoadTrees`, `RevertKeys` and `RevertValues` in `Revert`; `PutAll` in `Merge`; `WriteErased`, `WriteKeys`, `WriteValues` and `WriteValue` in `WriteTo`; `WriteByte` in the legacy `WriteBinary`.
- These follow the code as written: `Merge` adds other's erased paths without pruning Created. ExpandString data gets no NUL terminator. A value directive after its key was deleted writes into a dictionary no longer in Created, so it is lost.
