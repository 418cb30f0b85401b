# MyFs: a flat file system on a block device, in Dafny

This project models the storage engine `MyFs` (myfs.cpp) and the slot tokenizer
`splitEntry` (Helper.cpp) of a small educational file system. The engine keeps all
of its state in the bytes of a simulated block device:

- a superblock header at offset 0 (the magic "MYFS" and version 3);
- the number of files, written as a NUL-padded decimal numeral in the count field;
- a table of fixed-size slots, one per file in creation order, each holding
  `name|address|size` in text, NUL-padded;
- one fixed-size content block per file, at an address fixed by its creation index.

The model keeps that form. `MyFs` is a class over a device `array<byte>` and the
in-memory count `fileCount`. Every operation reads and writes the device the way
the engine does: slot bytes are read and cut at the first NUL, tokenized by the
`getline` loop and parsed with `stoi`. A ghost sequence `entries` records the table
the device holds. The class invariant `Valid()` says that slot `k`, for each
`k < fileCount`, holds the encoding of `entries[k]`, and that names are distinct.

Each method is proved against that invariant and a specification:

- the lookups find the FIRST entry with a name (`FindName`);
- the writers leave the device equal to an exact image of the old one (`Overwrite`);
- the codecs round-trip: slot encode/decode (`DecodeEncodeSlot`), `stoi` of
  `to_string` (`StoiOfDec`), split of join (`SplitJoin`, `SplitEntryFields`);
- `set_content` followed by `get_content` gives the content back (`SetThenGet`);
- closing and reopening keeps the count and the table (`CloseThenReopen`).

Modules, one per file:

| file | module | what |
|---|---|---|
| wrappers.dfy | Wrappers | `Option`, `Result` for the engine's exceptions and sentinels |
| bytes.dfy | ByteStrings | bytes, NUL padding, C-string reading, device-write images |
| decimal.dfy | Decimal | `to_string` and `stoi` on non-negative integers |
| helper.dfy | Helper | `splitEntry` and the `getline` tokenization |
| layout.dfy | Layout | header, count field, slot and block addresses |
| slot.dfy | Slot | the slot codec: name, address and size joined by the delimiter |
| myfs.dfy | FileSystem | the class `MyFs` and the table invariant |

## Model

| member | source | states |
|---|---|---|
| FileSystem.MyFs.constructor | myfs.cpp:15 | the engine starts on the given device with a file count of 0 and an empty, valid table |
| FileSystem.MyFs.Open | myfs.cpp:15-35 | a device whose header lacks the magic or the version is formatted: the header is written, nothing else, and the count is 0. A matching header leaves the device unchanged and loads the count with `stoi`; a `stoi` failure is an error. The engine is valid exactly when the first `count` slots hold a table |
| FileSystem.MyFs.DeviceWrite | myfs.cpp:101 | a device write replaces exactly the written range with the data |
| FileSystem.MyFs.Format | myfs.cpp:56-62 | only the header bytes change, and the table invariant is kept |
| FileSystem.MyFs.Close | myfs.cpp:41-49 | only the count field changes; it holds the count as a NUL-padded decimal |
| FileSystem.MyFs.ReadEntryTokens | myfs.cpp:74-77 | reading slot `k`, cutting it at its NUL and splitting it gives entry `k`'s name, decimal address and decimal size |
| FileSystem.MyFs.GetEntryInfo | myfs.cpp:70-85 | returns the offset and tokens of the first slot, in creation order, named `fileName`; returns not-found exactly when no slot in use carries that name |
| FileSystem.MyFs.IsFileExists | myfs.cpp:136-152 | true exactly when some slot in use carries the name |
| FileSystem.MyFs.AddTableEntry | myfs.cpp:95-102 | an entry longer than a slot fails (the padding `append` throws) and nothing is written; otherwise its padded encoding is written into the slot just past the table, every other byte is unchanged, and the existing table still holds |
| FileSystem.MyFs.EditTableEntry | myfs.cpp:113-128 | an unknown name gives "File not found" and no write; a new entry longer than a slot fails with no write; otherwise the slot found is overwritten with the new entry's encoding, and only that slot changes |
| FileSystem.MyFs.CreateFile | myfs.cpp:161-175 | a name longer than MAX_FILE_NAME fails, and so does a name already present. With every slot in use it fails with `TableFull` (the corrected behaviour, see Findings). Otherwise an entry with the name, the content address of the next index and size 0 is appended to the table, the count grows by one and only that slot changes. A failure changes nothing, and the table invariant always holds afterwards |
| FileSystem.MyFs.GetContent | myfs.cpp:183-198 | an unknown name gives "File not found"; otherwise the result is the file's MAX_FILE_SIZE-byte block read as a C string |
| FileSystem.MyFs.SetContent | myfs.cpp:207-230 | content longer than MAX_FILE_SIZE fails and writes nothing. A missing file is created first, and a rejected creation (name too long, table full) writes nothing. On success the slot holds the new size at the unchanged address, the first MAX_FILE_SIZE - 1 bytes of the NUL-padded content are in the block, nothing else changes, and the name is found at the slot written |
| FileSystem.MyFs.RecordContent | myfs.cpp:228-229 | for an existing entry `k`, the slot is rewritten with the new size (address kept), then the padded content is written at the address; the table changes only at `k` |
| FileSystem.MyFs.ListDir | myfs.cpp:238-268 | "/" lists one entry per slot in use, in creation order, each with the slot's name and size and `is_dir` false; any other path is not implemented |
| FileSystem.FileContent | myfs.cpp:194-197 | what `get_content` returns for the `k`-th file: NUL-free, a prefix of the file's block, and followed by a NUL when shorter than the block |
| FileSystem.TargetIndex | myfs.cpp:216-225 | the slot `set_content` works on: an index of the table exactly when the name is found there, and then the index `FindName` gives (the slot found), otherwise the index just past the table (the slot a creation appends) |
| FileSystem.FindName | myfs.cpp:72-81 | the index found carries the name and no earlier entry does; none is found only when no entry carries it |
| FileSystem.FindNameUnique | myfs.cpp:72-81 | the first index carrying a name is the one the lookup returns |
| FileSystem.FindNameAppend | myfs.cpp:221-222 | after a file is created under a new name, the lookup finds it at the new last slot |
| FileSystem.FindNameReplace | myfs.cpp:228 | rewriting the slot found with an entry of the same name leaves the lookup on that slot |
| FileSystem.TableHoldsAfterWrite | myfs.cpp:229 | a write that touches no slot in use (header, count field, content block) keeps the table |
| FileSystem.TableHoldsAppend | myfs.cpp:172-174 | writing a well-placed entry with a new name just past the table gives a table one entry longer |
| FileSystem.TableHoldsExtend | myfs.cpp:172-174 | a table followed by a slot holding a well-placed entry with a new name is a table one entry longer |
| FileSystem.TableHoldsReplace | myfs.cpp:124-127 | rewriting slot `k` with a same-name entry gives the table with entry `k` replaced |
| FileSystem.TableDeterminesEntries | myfs.cpp:74-77 | the device bytes determine the table: two tables of the same length held by one device are equal |
| FileSystem.ContentRoundTrip | myfs.cpp:218-229 | after a set, the block read back as a C string is the content. This needs NUL-free content shorter than MAX_FILE_SIZE; at MAX_FILE_SIZE - 1 bytes it also needs the block's last byte, which is never written, to be NUL |
| FileSystem.CloseThenReopen | myfs.cpp:41-49 | after the destructor writes the count, the header still matches, the count read back is the one written, and the table is still held |
| FileSystem.SetThenGet | myfs.cpp:207-230 | `set_content` then `get_content` of the same name returns the content, for NUL-free content that leaves a NUL in the block |
| FileSystem.UncheckedAppendClobbersFirstFile | myfs.cpp:172 | as written, the append at a full table writes a slot that starts below the first content block and ends inside it; for a short entry the first file then reads back as empty content |
| Helper.SplitEntry | Helper.cpp:9-21 | the `getline` loop yields exactly `Split(entry)` |
| Helper.Split | Helper.cpp:15-18 | the reference definition of the tokens the `getline` loop produces. It has no contract of its own; it is pinned down by `SplitIsPiecesWithoutFinalEmpty`, `JoinPieces`, `SplitReconstructs` and `SplitJoin` |
| Helper.FindDelimiter | Helper.cpp:15 | one `getline` stops at the first delimiter, or at the end when there is none |
| Helper.FindDelimiterUnique | Helper.cpp:15 | the first delimiter position is determined by its defining properties |
| Helper.SplitIsPiecesWithoutFinalEmpty | Helper.cpp:15-18 | the tokens are the pieces between delimiters, minus an empty last piece (a trailing delimiter or the empty entry gives no token) |
| Helper.SplitTrailingDelimiter | Helper.cpp:15-18 | the empty entry has no tokens, and a trailing delimiter adds no empty token |
| Helper.PiecesAppendDelimiter | Helper.cpp:15-18 | a trailing delimiter adds exactly one empty piece |
| Helper.PiecesCut | Helper.cpp:15-18 | cutting at the first delimiter gives the first piece, then the pieces of the rest |
| Helper.SplitStep | Helper.cpp:15-18 | one loop iteration takes the next token and consumes its delimiter |
| Helper.SplitUnfold | Helper.cpp:15-18 | the first token runs up to the first delimiter, and the remaining tokens are those of what follows it |
| Helper.SplitTokensComeFromInput | Helper.cpp:15-18 | every byte of every token is a byte of the entry and is not the delimiter |
| Helper.SplitTokensHaveNoDelimiter | Helper.cpp:15-18 | no token contains the delimiter |
| Helper.JoinPieces | Helper.cpp:15-18 | joining the pieces with the delimiter gives back the entry |
| Helper.LastPieceEmptyOnlyAfterDelimiter | Helper.cpp:15-18 | the last piece is empty only for an empty entry or one ending in the delimiter |
| Helper.SplitReconstructs | Helper.cpp:9-21 | for an entry not ending in the delimiter, joining its tokens gives back the entry: no byte is lost and the order is kept |
| Helper.SplitJoin | Helper.cpp:9-21 | splitting delimiter-free tokens joined by the delimiter gives them back, when the last is non-empty |
| Helper.SplitEntryFields | myfs.cpp:97 | a name, an address and a size joined by the delimiter split back into those three fields |
| Slot.EncodeEntry | myfs.cpp:97 | the text of a slot: the name, the decimal address and the decimal size, separated by the delimiter. It holds no NUL when the name is storable |
| Slot.EncodeSlot | myfs.cpp:97-98 | the slot written for an entry is exactly TABLE_ENTRY_SIZE bytes, the entry followed by NUL padding; `DecodeEncodeSlot` reads it back |
| Slot.SlotTokens | myfs.cpp:75-77 | the tokens `splitEntry` yields for a slot buffer converted to a string at its first NUL; it has no contract of its own, and `SlotTokensOfEncoded` and `SlotTokensAreNulFree` state what it gives |
| Slot.DecodeTokens | myfs.cpp:195 | a decoded token vector has at least three tokens (later ones are ignored, as the engine reads only `.at(0)` to `.at(2)`), the first is the name, and both numbers fit an `int` |
| Slot.DecodeSlot | myfs.cpp:248-255 | an entry decoded from any slot has a storable name, with no delimiter and no NUL, and numbers that fit an `int` |
| Slot.SlotTokensOfEncoded | myfs.cpp:97-101 | a slot written for a storable entry reads back, after the NUL cut and the split, as its three fields |
| Slot.DecodeEncodeSlot | myfs.cpp:97-101 | a slot written for a storable entry with `int`-sized numbers decodes back to that entry |
| Slot.EncodeEntryInjective | myfs.cpp:97-101 | distinct storable entries are written as distinct slots |
| Slot.SlotTokensAreNulFree | myfs.cpp:75-77 | the NUL padding never reaches a token |
| Slot.EncodedEntryFits | myfs.cpp:163-172 | an entry with a name of at most MAX_FILE_NAME bytes, a table content address and a size of at most MAX_FILE_SIZE fits a slot with room for a NUL, and its numbers fit an `int` |
| Decimal.Dec | myfs.cpp:44 | `to_string` of a natural is a non-empty numeral without a leading zero |
| Decimal.LeadingDigits | myfs.cpp:33 | `stoi` consumes the longest prefix of digits |
| Decimal.Stoi | myfs.cpp:33 | `stoi` fails with invalid_argument exactly when the string does not start with a digit; every value it returns fits an `int` |
| Decimal.ValueOfDec | myfs.cpp:44 | a `to_string` numeral denotes the number it was made from |
| Decimal.StoiOfDec | myfs.cpp:33 | `stoi(to_string(n)) == n` for every `n` up to INT_MAX |
| Decimal.DecInjective | myfs.cpp:97 | distinct numbers have distinct numerals |
| Decimal.DecLength | myfs.cpp:45 | a number below 10^k has at most k digits |
| Decimal.DecLengthMonotone | myfs.cpp:97 | a larger number never has a shorter numeral |
| Decimal.NonDigitNotInNumeral | myfs.cpp:97 | neither the delimiter nor NUL occurs in a numeral |
| Layout.LayoutAssumptions | myfs.cpp:95-102 | the relations the proofs take from the assumed layout: the header, the count field and the slots do not overlap; the scans visit exactly the slots in use; MAX_FILE_SIZE fits a block; the longest entry the engine writes leaves room for a NUL in a slot; a full table's count leaves room for one in the count field; the numbers fit an `int` |
| Layout.SlotOffset | myfs.cpp:101 | every slot of the table lies between TABLE_START_ADDRESS and TABLE_END_ADDRESS |
| Layout.ContentAddress | myfs.cpp:172 | every content block starts at or after TABLE_END_ADDRESS, and the block of each slot of the table lies within the device |
| Layout.SlotBytes | myfs.cpp:74-75 | the TABLE_ENTRY_SIZE bytes a scan reads for slot `k` |
| Layout.ContentBlock | myfs.cpp:194-195 | the MAX_FILE_SIZE bytes `get_content` reads for the `k`-th file |
| Layout.HeaderMatches | myfs.cpp:21 | the constructor's check succeeds exactly when the first HEADER_SIZE bytes are the header `format` writes |
| Layout.EncodeCount | myfs.cpp:44-45 | the count field is FILE_COUNT_SIZE bytes, and when the numeral leaves room for a NUL it reads back as the numeral |
| Layout.ReadCount | myfs.cpp:31-33 | loading the count fails with invalid_argument exactly when the field does not start with a digit; a loaded count fits an `int` |
| Layout.ScanVisitsExactlyCountSlots | myfs.cpp:72 | the scans, bounded by `count * TABLE_ENTRY_SIZE` and starting at TABLE_START_ADDRESS, visit slots 0 to count - 1 |
| Layout.FormattedHeaderMatches | myfs.cpp:56-62 | after `format`, the constructor's header check succeeds |
| Layout.CountPersists | myfs.cpp:44-47 | a count written by the destructor is read back by the constructor, and the header is untouched |
| Layout.CountFitsField | myfs.cpp:44-45 | every count the table can reach leaves room for a NUL in the count field |
| ByteStrings.PadNul | myfs.cpp:218 | padding keeps the string as a prefix and fills the rest with NUL |
| ByteStrings.CStr | myfs.cpp:197 | a `char*` converts to the bytes before the first NUL |
| ByteStrings.CStrOfTerminated | myfs.cpp:197 | a NUL-free string followed by a NUL reads back as itself |
| ByteStrings.CStrOfPadded | myfs.cpp:98-101 | a NUL-free string padded with NULs reads back as itself |
| ByteStrings.Overwrite | myfs.cpp:101 | after a write, the written range holds the data and every other byte is unchanged |
| ByteStrings.OverwriteReadBack | myfs.cpp:101 | the written region reads back as the data |
| ByteStrings.OverwriteTwice | myfs.cpp:221-228 | when a slot is created and then edited, the later write hides the earlier one |
| ByteStrings.OverwriteFrame | myfs.cpp:229 | a region disjoint from the write keeps its bytes |

## Left out

- Console output (the coloured progress messages of the constructor and destructor) is not modelled.
- The block-device simulator is not part of this model. The device is a byte array: reads are slices and writes are in-place range updates. Opening, mapping and flushing the backing file are left out.
- The header that defines FILE_COUNT_ADDRESS, FILE_COUNT_SIZE, TABLE_START_ADDRESS, TABLE_ENTRY_SIZE, TABLE_END_ADDRESS and FILE_SIZE is not part of this model. The model uses an assumed layout: 5, 11, 16, 32, 1024 and 1024. `Layout.LayoutAssumptions` states the relations between these constants that the proofs need; a layout meeting them keeps every proof except `FileSystem.UncheckedAppendClobbersFirstFile`, which is specific to this layout (with a table that ends exactly where its last slot ends, no entry meets its precondition). Several proofs read the constant values directly rather than through that lemma.
- The root myfs.h and the src/myfs_main.cpp shell are not part of this model.
- Decimal.Stoi: leading white space and a sign are not modelled. The engine only parses numerals it wrote itself.
- FileSystem.MyFs.Open: the constructor and `Open` require a device of at least DEVICE_SIZE bytes (32768 with the assumed layout), so that every slot and content block the layout names lies on the device. The engine itself takes any device and works on a smaller one as long as the files in use stay in range; such devices are outside the model.
- FileSystem.MyFs.Open: a count field with no NUL in its 11 bytes is read as the whole field. The engine's `stoi` would read past the buffer there.
- FileSystem.MyFs.GetContent: a block with no NUL is returned whole. The engine's conversion would read past the buffer there.
- FileSystem.MyFs.Open: only a table exactly as the engine writes it is modelled. `Valid()` requires each slot in use to be byte for byte the padded encoding of a well-placed entry (`WellPlaced`, `SlotHolds`), with distinct names. So it excludes tables that fail to decode (out-of-range `.at()`, `stoi` of a garbled slot), and also tables that decode but differ from what the engine writes: non-NUL bytes after a slot's terminating NUL, an address other than the content address of the slot's index, a name longer than MAX_FILE_NAME, a size above MAX_FILE_SIZE, a numeral with a leading zero, a repeated name. On such a device the engine still runs, but the model says nothing past `Open`.
- FileSystem.MyFs.CreateFile: rejects a creation at a full table with `TableFull`, where the engine appends past the table (see Findings). `SetContent` inherits that error when it would create the file.
- FileSystem.MyFs.AddTableEntry: an entry longer than a slot makes the padding `append` throw `length_error`; the model returns `EntryTooLong` with no write. The engine's own callers never build such an entry (`Slot.EncodedEntryFits`).
- FileSystem.MyFs.EditTableEntry: the same `length_error` is modelled as `EntryTooLong` with no write, after the "File not found" check as in the engine.
- FileSystem.MyFs.SetContent: the check on content longer than MAX_FILE_SIZE constructs a `runtime_error` but does not throw it. The failure then comes from the padding `append`, whose size argument wraps around and throws. The model returns `ContentTooLong` for that case, with no write.
- FileSystem.MyFs.SetContent: the engine pads the caller's string in place, through a reference argument. The model takes the content by value.
- FileSystem.SetThenGet: content of exactly MAX_FILE_SIZE bytes loses its last byte, because only MAX_FILE_SIZE - 1 bytes are written. Content of MAX_FILE_SIZE - 1 bytes round-trips only when the block's last byte is already NUL. The lemma requires those conditions instead of claiming the round trip for all content.
- Names containing '|' or NUL are excluded by `NameIsStorable`. The engine would write a slot that does not tokenize back into its fields.
- EntryInfo keeps the slot offset as a number. The engine carries it as `to_string(i)` and converts it back with `stoi`; that round trip is `Decimal.StoiOfDec`.
- FileSystem.MyFs.CreateFile: the engine writes only the slot, not the content block, and the model keeps that behaviour: its ensures say every other byte is unchanged, so `GetContent` of a new file returns `FileContent` of whatever the block held. After a device is reformatted over an earlier one, a new file at index `k` therefore reads back the stale content of the earlier file `k`, not empty content. The model promises empty content only when the block starts with NUL.
- Crash consistency, concurrency and the `directory` flag of `create_file` (ignored by the engine) are not modelled.

## Findings

| source | as written | input that shows it | evidently intended | confidence | as-written member | corrected member |
|---|---|---|---|---|---|---|
| myfs.cpp:161-175 | `create_file` has no capacity check: with every slot in use, `addTableEntry` writes the next slot past TABLE_END_ADDRESS, into the first file's content block | with the assumed layout, 31 files, then `create_file` of a new name such as "f": slot 31 covers bytes 1008-1039, and bytes 1024-1039 of file 0's block become NUL padding, so file 0 reads back empty | the creation is rejected when the table is full, and no content is touched | medium: not executed, and the overlap depends on the assumed layout | FileSystem.UncheckedAppendClobbersFirstFile | FileSystem.MyFs.CreateFile |
