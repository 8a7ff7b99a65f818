# Verified model of the shrike AT Protocol library

The project models the parts of the library where a fast or streaming algorithm claims to be the same as a simple one,
and proves that it is:

- **DRISL**, the deterministic CBOR of the AT Protocol (`src/cbor`). One value type, one encoding `Enc`, and one decoding
  function. The decoder, the arena decoder, the map iterator and the two-pass encoder are classes proved against them.
  The decoder accepts exactly the canonical encodings (section 4.2.1 of RFC 8949), and the length-first key order of
  section 4.2.3 is the bytewise order of the encoded keys.
- **JSON and DRISL** (`src/cbor/json.rs`). Each direction is one pass over a buffer that it reorders in place; each is
  proved equal to building a tree and printing or encoding it. The two directions are then joined: what comes out is
  canonical, what is written is read back by a reader of JSON text that knows nothing of the writer, and what comes back
  is the same bytes under an exact condition.
- **CAR v1** (`src/car`). The blocking reader, the reader over a slice, the reader fed in chunks, and the writer.
- **Jetstream archives** (`src/jetstream`). The columnar block as a bijection with lists of rows, and the striped
  download, with its retries, against a server that may replace the object between any two requests.
- **The identity cache** (`src/identity/directory.rs`). Lookups and purges by any number of threads, one atomic action a
  step; what a lookup returns is traced back through the steps of the run to what was resolved for its DID.

Functions say what each operation means; methods and classes follow the code's own loops, buffers, offsets and error
branches, and each is proved against its function. Bytes are integers from 0 to 255, machine words are bounded
explicitly, and `usize` has 64 bits. Text is a byte string; `Canonical` says that decoded text is UTF-8.

Files, in the order they build on each other: `Wrappers`, `Bytes`, `KeyedLists` (lists of pairs: order, stable sort,
last-wins deduplication), `Utf8`, `Cids`, `Drisl`, `DecodeSpec`, `Canonicity`, `EncodeSpec`, `Encoder`, `RoundTrip`,
`Limits` (the codec's limits in numbers), `Decoder`, `MapEntries`; `JsonTree`, `JsonToDrisl`, `Words`, `JsonText`,
`DrislToJson`, `JsonRoundTrip`, `JsonReader`, `BaseX`; `Varint`, `CarSpec`, `CarReaders`, `CarIncremental`, `CarWriter`;
`JetstreamBlock`, `Stripes`, `Download`, `DownloadRestarts`, `Retries`; `IdentityDirectory`, `IdentityHistory`.

Where the code and its comments differ, the model follows the code. The comment on `download_fetch` says that status 408
is retried; the code treats it as terminal (`src/jetstream/download.rs:845-853`), and so do `Classify` and `Transient`.

Three properties hold only under a condition, which is proved to be exact:

- the restart budget of a download bounds it exactly when it is below 2^32 - 1 (`DownloadRestarts.BudgetHoldsBelowMax`);
- the identity cache is never stale exactly in runs with fewer than 2^64 purges (`IdentityDirectory.FreshUntilWrap`); the
  stale run of `IdentityDirectory.StaleAfterWrap` relies on expiry being free in every step, so that one entry outlives
  all those purges, although the code lets entries expire after 300 seconds;
- DRISL survives the way to JSON and back exactly when its integers are allowed and none of its maps would be read as a
  `$link` or `$bytes` object (`JsonRoundTrip.BackToTheSameBytes`); `JsonRoundTrip.MistakenComesBackChanged` gives one that does not.

## Model

| member | source | states |
|---|---|---|
| `Cids.CidBytes` | src/cbor/cid.rs:157-198 | A binary CID reads back as a CID exactly when it is what that CID writes: 36 bytes, one form each. |
| `Cids.Tag42Bytes` | src/cbor/cid.rs:200-213 | The same for the body of tag 42, with its leading zero byte. |
| `Cids.CidErrors` | src/cbor/cid.rs:168-198 | The error of a malformed CID names the first part of the bytes that no CID has. |
| `Utf8.ValidIffScalars` | src/cbor/decode.rs:30-39 | Text passes as UTF-8 exactly if it is the encoding of a list of Unicode scalar values (section 3 of RFC 3629). |
| `Bytes.CompareFromBe` | src/cbor/encode.rs:231-235 | Equally long strings of bytes compare as the big-endian numbers they spell, which is why comparing words is right. |
| `KeyedLists.KeyCmpTransitive` | src/cbor/encode.rs:219-240 | The key order is transitive. |
| `KeyedLists.KeyCmpFlip` | src/cbor/encode.rs:219-240 | The key order reverses when its arguments are swapped. |
| `KeyedLists.KeyCmpEqual` | src/cbor/encode.rs:219-240 | Two keys compare equal only if they are the same, so with the two rows above it is a strict total order. |
| `Drisl.EncodedKeyOrder` | src/cbor/decode.rs:312-348 | Length-first order of keys is the bytewise order of their encodings, across every head size. |
| `Drisl.CompareHeads` | src/cbor/encode.rs:219-225 | A longer argument never has a bytewise smaller head, whatever follows. |
| `Encoder.CborKeyCmp` | src/cbor/encode.rs:219-240 | Comparing lengths, then eight-byte words, then the rest gives the key order and the bytewise order of the encoded keys. |
| `DecodeSpec.HeadIsRead` | src/cbor/decode.rs:430-480 | The minimal head of any argument is read back as it. |
| `DecodeSpec.ArgumentIsHead` | src/cbor/decode.rs:430-480 | An argument that is accepted stands in its one minimal head: no longer width passes. |
| `Canonicity.ValueSound` | src/cbor/decode.rs:61-202 | From any position and level, what decodes is canonical and the bytes taken are its encoding. |
| `Canonicity.ValueComplete` | src/cbor/decode.rs:61-202 | From any position and level, the encoding of a canonical value decodes to it. |
| `Canonicity.EntriesSound` | src/cbor/decode.rs:124-143 | Decoded maps have strictly ascending keys after the previous one and stand as their encoding. |
| `Canonicity.DecodesExactlyTheCanonical` | src/cbor/decode.rs:61-202 | The decoder reads a value exactly when it is canonical for that level and its encoding is next. |
| `Canonicity.DecodeIffCanonical` | src/cbor/mod.rs:52-62 | A whole input decodes to a value if and only if it is the encoding of it and the value is canonical. |
| `Canonicity.DecodeInjective` | src/cbor/mod.rs:52-62 | No two inputs decode to the same value. |
| `EncodeSpec.NormalOfOrdered` | src/cbor/mod.rs:189-218 | Sorting is unnecessary where the keys already ascend: the encoding is the same with and without it. |
| `Encoder.Writer.PutHead` | src/cbor/encode.rs:143-160 | The buffer gains the minimal head. |
| `Encoder.Writer.WriteItem` | src/cbor/mod.rs:149-179 | A pass, sorting or not, gets through exactly the values it should and then has appended the canonical encoding; it only appends. |
| `Encoder.Writer.WriteMap` | src/cbor/mod.rs:189-218 | A map comes out with its keys stably sorted, whether it had to be sorted or not. |
| `Encoder.Writer.InOrder` | src/cbor/mod.rs:189-218 | Comparing neighbours tells whether a map needs sorting. |
| `Encoder.OptimistIsRight` | src/cbor/mod.rs:133-140 | A value the pass without sorting gets through is one the sorting pass gets through. |
| `Encoder.Writer.WriteValue` | src/cbor/mod.rs:133-140 | The optimistic pass and its fallback together give the bytes and the error of the sorting pass alone, after what was in the buffer. |
| `Encoder.EncodeValue` | src/cbor/mod.rs:65-69 | The same for a whole value: duplicate keys, unsorted maps and non-finite floats included. |
| `RoundTrip.DecodeThenEncode` | src/cbor/mod.rs:52-69 | Accepted bytes are a fixed point: encoding what was decoded gives them back. |
| `RoundTrip.EncodeThenDecode` | src/cbor/mod.rs:52-69 | An encoding decodes if and only if the value has no repeated key, integers in range, UTF-8 text and fits the limits on depth and length, and then to the value with its maps sorted. |
| `RoundTrip.FitsIffCanonical` | src/cbor/decode.rs:61-202 | Those are exactly the values whose sorted form the decoder can return. |
| `RoundTrip.EncPrefixFree` | src/cbor/mod.rs:149-218 | No encoding is a prefix of another, and no two values share one. |
| `Limits.FloatEncodes` | src/cbor/mod.rs:160-163 | A float is encoded exactly if its bits without the sign are below 0x7ff0000000000000, those of infinity. |
| `Limits.FloatDecodes` | src/cbor/decode.rs:179-186 | Eight bytes after 0xfb decode exactly if so; that bit pattern is refused as infinite and every one above it as NaN. |
| `Limits.UnsignedDecodes` | src/cbor/decode.rs:61-202 | A non-negative integer decodes exactly if it is below 2^63. |
| `Limits.NegativeDecodes` | src/cbor/decode.rs:61-202 | A negative one decodes exactly if it is at least -2^63. |
| `Limits.NestingLimit` | src/cbor/decode.rs:61-202 | 64 nested arrays decode, 65 do not. |
| `Limits.LengthLimit` | src/cbor/decode.rs:61-202 | An array of 500,000 items decodes, one of 500,001 does not. |
| `DecoderModel.Decoder.NextArgument` | src/cbor/decode.rs:430-480 | The argument reader moves past and returns what the specification reads, with the same error for every malformed form. |
| `DecoderModel.Decoder.NextTag42Body` | src/cbor/decode.rs:206-217 | The tag 42 body is read, or refused, as specified. |
| `DecoderModel.Decoder.NextKeyBytes` | src/cbor/decode.rs:312-348 | A key is accepted exactly if its encoding follows the previous one bytewise; out of order and repeated keys are told apart. |
| `DecoderModel.Decoder.Decode` | src/cbor/decode.rs:61-202 | Value, end position and error are those of the specification, and the nesting level is restored on success. |
| `DecoderModel.DecodeAll` | src/cbor/mod.rs:52-62 | The top-level decoder, trailing bytes refused. |
| `DecoderModel.Decoder.DecodeShallow` | src/cbor/decode.rs:223-248 | A shallow read returns a scalar, or enters a container and leaves exactly its items to be read. |
| `DecoderModel.ItemsTakeBytes` | src/cbor/bump.rs:73-263 | Every item takes at least a byte, so a count beyond the remaining input is bound to fail. |
| `DecoderModel.EntriesTakeBytes` | src/cbor/bump.rs:73-263 | Every map entry takes at least two bytes, likewise. |
| `DecoderModel.Decoder.DecodeBump` | src/cbor/bump.rs:73-263 | The arena decoder accepts what the generic one does, with the same value and end, its early refusals included. |
| `DecoderModel.Decoder.BumpMap` | src/cbor/bump.rs:157-220 | A preallocated slice of entries is filled with what the generic decoder returns. |
| `DecoderModel.DecodeBoth` | src/cbor/bump.rs:66-263 | From a fresh decoder the two accept the same inputs, with equal values and final positions. |
| `MapEntriesModel.KeyHit` | src/cbor/decode.rs:500-521 | The bytes ahead start with a whole encoded key exactly when the general read finds that key. |
| `MapEntriesModel.KnownKey` | src/cbor/decode.rs:500-521 | The same with a previous key: found and after it, and otherwise the general read's own order error. |
| `MapEntriesModel.MapEntries.Next` | src/cbor/decode.rs:523-575 | Each step takes one entry off what the generic decoder would read; after an error nothing is left, and further calls change nothing. |
| `MapEntriesModel.MapEntries.TryField` | src/cbor/decode.rs:500-521 | A hit takes off the entry a general read would; a miss, which means the key is not next, changes nothing; an error is the general read's, except that a repeated and an unordered key share one. |
| `MapEntriesModel.MapEntries.NextRaw` | src/cbor/decode.rs:523-545 | Reading a key without its UTF-8 check, and then checking, is what the generic decoder reads. |
| `MapEntriesModel.MapEntries.Drop` | src/cbor/decode.rs:576-581 | Dropping the iterator restores the parent's nesting level, wherever it stopped. |
| `MapEntriesModel.NewMapEntries` | src/cbor/decode.rs:272-294 | The iterator starts with exactly the entries of the map the generic decoder would return; on refusal the level is unchanged. |
| `MapEntriesModel.CollectMap` | src/cbor/decode.rs:272-294 | Collecting the iterator accepts and yields what `decode` does on a map, and restores the level on success and on error. |
| `KeyedLists.SortSorts` | src/cbor/json.rs:633-640 | The sort orders and only permutes. |
| `KeyedLists.SortLast` | src/cbor/json.rs:638-652 | It is stable: the last value of every key stays the last. |
| `KeyedLists.SortedMap` | src/cbor/json.rs:619-692 | Sorting stably and keeping the last of each run of equal keys gives what a map filled in order holds, sorted. |
| `KeyedLists.PutAllCorrect` | src/cbor/json.rs:445-476 | A map filled in order is sorted, has each key once, and holds its last value. |
| `JsonTree.ObjectBody` | src/cbor/json.rs:464-475 | The reference body of an object is its surviving members in canonical order, so a lone survivor can be a `$link` or `$bytes`. |
| `JsonTree.IntegerIs` | src/cbor/json.rs:478-500 | A number is taken as an integer exactly if it denotes that integer, which has to be within 2^53 - 1 of zero where it is written as a double or only safe integers are allowed. |
| `JsonTree.IntegerErrors` | src/cbor/json.rs:478-500 | It is no integer exactly if no 64-bit value is the one it denotes, within those bounds for a double; it is unsafe exactly if it is an integer by form beyond them and they apply. |
| `JsonTree.OneMember` | src/cbor/json.rs:445-476 | In bytes, what an object of one member becomes: a CID in tag 42 if the key is `$link`, a byte string if it is `$bytes`, the parser's error, or a map. |
| `JsonTree.ManyMembers` | src/cbor/json.rs:445-476 | An object of no or several members is a map, whatever its keys. |
| `JsonToDrisl.KeepLast` | src/cbor/json.rs:641-652 | The in-place deduplication keeps the last of each run. |
| `JsonToDrisl.OrderMembers` | src/cbor/json.rs:634-653 | The members end up in canonical order, last of each key; if they were found in order, they were not touched. |
| `JsonToDrisl.DrislWriter.FinishArray` | src/cbor/json.rs:601-617 | The one-byte placeholder becomes the head of the array, in place below 24 items and by moving the body above. |
| `JsonToDrisl.DrislWriter.SortMap` | src/cbor/json.rs:627-692 | Members written in document order become the reference encoding of the object, or it is found invalid; special objects, duplicates and invalid values later replaced included. |
| `JsonToDrisl.DrislWriter.FinishMap` | src/cbor/json.rs:619-626 | The same, and the member stack is back where the enclosing object left it. |
| `JsonToDrisl.DrislWriter.VisitMap` | src/cbor/json.rs:761-788 | Members are stacked where they stand, and an object comes to what its tree encodes to. |
| `JsonToDrisl.DrislWriter.VisitSeq` | src/cbor/json.rs:744-759 | An array comes to what its tree encodes to. |
| `JsonToDrisl.DrislWriter.Visit` | src/cbor/json.rs:702-788 | Any value: the output grows by the reference encoding of its tree, or the value is invalid exactly when that fails. |
| `JsonToDrisl.EncodeJson` | src/cbor/json.rs:521-557 | The one pass gives bytes exactly when last-wins tree building and encoding succeed, and the same bytes. |
| `JsonToDrisl.JsonToDrislBytes` | src/cbor/json.rs:74-79 | With its fallback the conversion has the bytes and the error of the reference. |
| `Words.EscapesFindsFirst` | src/cbor/json.rs:428-443 | The subtract-and-mask word test never flags a byte before the first special one, and finds it. |
| `JsonText.WordScan` | src/cbor/json.rs:428-443 | On eight bytes of text the test finds the end of the clean prefix. |
| `JsonText.ShortWordIsPadded` | src/cbor/json.rs:415-426 | Overlapping halves, and three bytes that may coincide, make the text padded with zeros. |
| `JsonText.ShortScan` | src/cbor/json.rs:399-426 | The padding does not change the answer. |
| `JsonText.CleanPrefixUnique` | src/cbor/json.rs:399-413 | The clean prefix is the one length with no byte to escape before it and one at it, unless it is all. |
| `JsonText.CleanLen` | src/cbor/json.rs:399-413 | The scan by words, the overlapping last word included, returns the length of the longest prefix without a byte below 0x20, a quote or a backslash. |
| `JsonText.Digits` | src/cbor/json.rs:338-349 | The digits filled from the end of a buffer are the decimal form. |
| `DrislToJson.JsonWriter.WriteStr` | src/cbor/json.rs:355-397 | The string is written quoted and escaped, by the short path and by stretches alike. |
| `DrislToJson.JsonWriter.SortEntries` | src/cbor/json.rs:320-331 | Entries permuted inside the output buffer are the same texts in bytewise key order, and the length is unchanged, so outer offsets stay valid. |
| `DrislToJson.JsonWriter.WriteMap` | src/cbor/json.rs:211-271 | An object is written with its members in bytewise order; the first float in document order is remembered. |
| `DrislToJson.JsonWriter.WriteValue` | src/cbor/json.rs:211-271 | Exactly the text of the value decoded is appended, or the decoder's error is returned. |
| `DrislToJson.ConvertsUnlessFloat` | src/cbor/json.rs:98-121 | A decoded value converts to JSON unless it holds a float, and the error names the first. |
| `DrislToJson.RawIsPrinted` | src/cbor/json.rs:98-121 | Without floats the text written in one pass is the printed tree. |
| `DrislToJson.MapPrinted` | src/cbor/json.rs:211-271 | Entries each ending in a comma, sorted, the last comma replaced by the bracket, are the printed object. |
| `DrislToJson.DrislToJsonInto` | src/cbor/json.rs:123-136 | The buffer gains the text of decoding, converting and printing; on the same error as that it is left as it was, a float being reported only if the whole input decodes. |
| `JsonReader.StringIsRead` | src/cbor/json.rs:355-397 | A quoted and escaped string, whatever follows it, is read back as that string by the escapes of section 7 of RFC 8259. |
| `JsonReader.NoControls` | src/cbor/json.rs:355-397 | No control character stands in it. |
| `JsonReader.EscapeLength` | src/cbor/json.rs:378-390 | The short escapes are used where there are any, and six characters in lower case otherwise. |
| `JsonReader.ValueIsRead` | src/cbor/json.rs:98-121 | A printed tree, whatever may follow it in a document, is read back as that tree. |
| `JsonReader.TextIsRead` | src/cbor/json.rs:123-136 | The text DRISL is converted to reads as the tree of its value: strings, numbers, member order and nesting. |
| `JsonRoundTrip.EncodesItsValue` | src/cbor/json.rs:445-476 | Encoding a JSON tree is encoding the value it stands for, errors included. |
| `JsonRoundTrip.OutputIsCanonical` | src/cbor/json.rs:57-79 | What JSON converts to is the canonical encoding of its value: it decodes exactly when the value is within the decoder's limits, and to that value. |
| `JsonRoundTrip.Base64IsRead` | src/cbor/json.rs:98-121 | A `$bytes` text is read back as its bytes by the alphabet and bit order of section 4 of RFC 4648. |
| `JsonRoundTrip.CidTextIsRead` | src/cbor/json.rs:98-121 | A `$link` text is read back as its CID: the prefix `b`, then base32 of section 6 of RFC 4648 in lower case. |
| `JsonRoundTrip.TextsInjective` | src/cbor/json.rs:98-121 | No two byte strings have one `$bytes` text and no two CIDs one `$link` text, as each text is read back. |
| `JsonRoundTrip.FaithfulParsersExist` | src/cbor/json.rs:511-517 | Parsers that read back what the conversion writes, as assumed below, exist: the two readers of the rows above. |
| `JsonRoundTrip.BackToTheSameBytes` | src/cbor/json.rs:18-31 | DRISL converted to JSON converts back to the same bytes if and only if its integers are allowed and none of its maps reads as a special object. |
| `JsonRoundTrip.MistakenComesBackChanged` | src/cbor/json.rs:18-31 | The DRISL map of an empty text under `$bytes` comes back from JSON as other bytes, whatever integers are allowed. |
| `JsonReader.BackThroughText` | src/cbor/json.rs:18-31 | The same through the text itself: DRISL written as JSON, read by that reader and converted back is the same bytes under the same condition, and only then. |
| `BaseX.MulAddIs` | src/cbor/json.rs:891-912 | The multiply-and-carry loop multiplies by the base and adds the digit. |
| `BaseX.Multiply` | src/cbor/json.rs:899-909 | It does so in place, without overflowing 32 bits for any base up to 2^24, the carry staying below the base. |
| `BaseX.ReversedIsMinimal` | src/cbor/json.rs:909-912 | Bytes without a leading zero are the shortest big-endian form of their value. |
| `BaseX.Decode` | src/cbor/json.rs:891-912 | The result is one zero byte for each leading zero digit, then the shortest big-endian form of the positional value; nothing if a character is no digit. |
| `BaseX.Injective` | src/cbor/json.rs:891-912 | No two accepted strings decode to the same bytes. |
| `Varint.UniqueEncoding` | src/car/reader.rs:252-272 | Every number below 2^63 has exactly one accepted varint, the one the writer emits, and no other number has any. |
| `Varint.ParseFails` | src/car/reader.rs:252-272 | Exactly when a varint is incomplete, too long, or not minimal. |
| `Varint.ParseStable` | src/car/reader.rs:243-272 | Once a varint or an error has been found, more input changes nothing. |
| `Varint.FromSlice` | src/car/reader.rs:243-250 | The loop over a slice parses the varint it starts with. |
| `Varint.EncodeVarint` | src/car/writer.rs:9-25 | The ten-byte buffer always suffices, and what it holds is the encoding. |
| `CarSpec.CheckBlockLen` | src/car/reader.rs:124-139 | Exactly the lengths with room for a CID and within 128 MiB are accepted, and each way to fail has its own error. |
| `CarReaders.HeaderRoots` | src/car/reader.rs:142-204 | The roots or the first error of a header frame, as `CarSpec.HeaderAccepts` characterises it. |
| `CarSpec.HeaderAccepts` | src/car/reader.rs:142-204 | A header is accepted with its roots exactly when it is one map, nothing after it, that gives version 1 and an array of just those links, whatever other keys it has. |
| `CarReaders.ReadVarintEof` | src/car/reader.rs:220-241 | Read byte by byte, the varint is the one the slice starts with, and nothing after it is consumed. |
| `CarReaders.Reader.NextBlock` | src/car/reader.rs:75-109 | The next block, the clean end or the first error, with the source left after the block. |
| `CarReaders.OpenReader` | src/car/reader.rs:31-43 | The header is read and the source left at the first block. |
| `CarReaders.ReadAll` | src/car/mod.rs:58-69 | Roots, blocks and error of reading a whole archive. |
| `CarReaders.SliceReader.SplitBlock` | src/car/slice.rs:72-94 | With the one- and two-byte lengths read directly, the same block or the same error as the blocking reader. |
| `CarReaders.SliceReader.Next` | src/car/slice.rs:97-110 | The same, ending cleanly at the end of the input; after an error nothing follows. |
| `CarReaders.ReadSliceAll` | src/car/slice.rs:42-110 | On every input the slice reader has the blocking reader's roots, blocks and first error. |
| `CarIncremental.IncrementalReader.Push` | src/car/incremental.rs:52-58 | A chunk is appended to what was not yet consumed, and only that is kept. |
| `CarIncremental.IncrementalReader.NextFrame` | src/car/incremental.rs:133-151 | A frame is consumed only once complete, its length judged as soon as it is known. |
| `CarIncremental.IncrementalReader.NextBlock` | src/car/incremental.rs:71-83 | The header, once, then the next whole block, or nothing yet and nothing consumed. |
| `CarIncremental.IncrementalReader.NextBlockDataLen` | src/car/incremental.rs:91-100 | The length the next block will have; only the header is consumed. |
| `CarIncremental.IncrementalReader.Finish` | src/car/incremental.rs:103-119 | The verdict on what is left when the stream ends. |
| `CarIncremental.Feed` | src/car/incremental.rs:39-151 | However an archive is cut into chunks, pushing and draining them and finishing gives the same roots, blocks and error. |
| `CarIncremental.PushedAgrees` | src/car/incremental.rs:39-151 | They are the blocking reader's roots and blocks, and both succeed or both fail; the error differs in two cases only, which it names. |
| `CarIncremental.PredictedIsYielded` | src/car/incremental.rs:86-100 | A predicted length is that of the block yielded later, whatever arrives in between, and a failed prediction is the block's failure. |
| `CarIncremental.DrainedIsPartial` | src/car/incremental.rs:39-151 | A drained reader holds at most one partial frame, bounded by the frame limits. |
| `CarWriter.ReadsBlock` | src/car/reader.rs:75-109 | A block is read exactly where its one encoding, within the limit, stands. |
| `CarWriter.ReadsBlocks` | src/car/writer.rs:74-88 | The bytes after a header read as a list of blocks exactly when they are what the writer writes for it. |
| `CarWriter.WriteHeader` | src/car/writer.rs:34-53 | The sorted header map is the canonical encoding of roots and version. |
| `CarWriter.HeaderIs` | src/car/writer.rs:34-53 | The header in bytes: the keys `roots` and `version` in canonical order, and version 1. |
| `CarWriter.ArchiveWriter.WriteBlock` | src/car/writer.rs:74-88 | A block is appended as its length, CID and data. |
| `CarWriter.WriteAll` | src/car/mod.rs:85-94 | A whole archive is its header frame and then its blocks in order. |
| `CarWriter.WriteThenRead` | src/car/writer.rs:28-88 | Reading a written archive gives back exactly its roots and blocks, if and only if the header is at most 1 MiB and every block with its CID at most 128 MiB. |
| `JetstreamBlock.KindCodes` | src/jetstream/block.rs:48-74 | Wire codes and kinds are in bijection. |
| `JetstreamBlock.KindByte` | src/jetstream/block.rs:48-74 | In a block of n rows the kind of row i is byte 4 + 24 n + i, with the seven codes from create, 1, to create-resync, 7. |
| `JetstreamBlock.CellsInOrder` | src/jetstream/block.rs:357-434 | What each row puts into each of the fourteen columns. |
| `JetstreamBlock.RowRead` | src/jetstream/block.rs:358-434 | A row that is read fits its length columns, and all fourteen of its cells are what was read. |
| `JetstreamBlock.RowWritten` | src/jetstream/block.rs:358-434 | Where the fourteen cells of a row stand, that row is read. |
| `JetstreamBlock.SumOfLengths` | src/jetstream/block.rs:298-320 | The lengths in a column add up to the length of the blob region they describe. |
| `JetstreamBlock.StartsAgree` | src/jetstream/block.rs:298-355 | The regions computed from the lengths are the regions the rows were laid out in, and end where the block ends. |
| `JetstreamBlock.LayoutHoldsRows` | src/jetstream/block.rs:258-434 | A layout that parses holds all its rows: no slice of the visit is out of bounds and no kind fails there. |
| `JetstreamBlock.SumLengths` | src/jetstream/block.rs:298-320 | The running sums never overflow, and the first unknown kind is refused. |
| `JetstreamBlock.Parse` | src/jetstream/block.rs:258-355 | The layout, or the error for a block that is empty with trailing bytes, too large, truncated in either part, of an unknown kind or too long. |
| `JetstreamBlock.Visit` | src/jetstream/block.rs:357-434 | The five moving offsets yield the rows of the layout. |
| `JetstreamBlock.Decode` | src/jetstream/block.rs:148-167 | The rows or the error of a block. |
| `JetstreamBlock.EncodedIsDecoded` | src/jetstream/block.rs:148-167 | Decoding the columnar encoding of rows within the limits gives the rows back. |
| `JetstreamBlock.DecodedIsEncoded` | src/jetstream/block.rs:148-167 | Encoding the rows of an accepted block gives the exact block: the regions tile it. |
| `JetstreamBlock.DecodesExactly` | src/jetstream/block.rs:148-167 | Decoding is a bijection between accepted blocks and lists of at most 262,144 rows whose parts are below 2^8, 2^16, 2^8, 2^8 and 2^32 bytes long. |
| `Stripes.ComputeStripes` | src/jetstream/download.rs:800-809 | The stripes tile the object, all but the last of full length, however large the stripe size. |
| `Stripes.StripesTile` | src/jetstream/download.rs:800-809 | There is no other such tiling. |
| `Download.DataIffPinned` | src/jetstream/download.rs:721-770 | A stripe is taken exactly when it is a 206 of the pinned generation for the range asked, although its status is never compared to 206, and it is then that slice. |
| `Download.DownloadStripes` | src/jetstream/download.rs:640-708 | Stripes are put together in range order up to the first failure. |
| `Download.StripedIffPinned` | src/jetstream/download.rs:640-708 | However the server switches generations, striping is done exactly when every stripe came from the pinned generation, and then with its whole object; the two internal consistency errors cannot happen. |
| `Download.TryDownloadWhole` | src/jetstream/download.rs:592-708 | One attempt: the probe's body, a whole request, stripes or an error. |
| `Download.ProbeIsTaken` | src/jetstream/download.rs:592-615 | A probe answered by 200 is the whole result, if it is within the cap. |
| `Download.WholeIsTaken` | src/jetstream/download.rs:616-649 | After a 416, or where stripes are not needed or cannot be pinned, the attempt ends with the body of the whole request, or with that request's own error. |
| `Download.StripesAreTaken` | src/jetstream/download.rs:650-662 | Stripes are used exactly for a longer object with an entity tag. |
| `Download.ProbeFails` | src/jetstream/download.rs:592-642 | Each other answer to the probe is its own error. |
| `Download.StripeOutcomes` | src/jetstream/download.rs:721-770 | Each answer to a stripe: taken, a restart, or its own error. |
| `Retries.HandleIs` | src/jetstream/download.rs:837-984 | A request is tried again exactly after 429, a 5xx, a slice cut short or a transport error that may pass; any other answer ends it. |
| `Retries.SettlesOnce` | src/jetstream/retry.rs:106-138 | Exactly one try can be the one that ends them. |
| `Retries.WithRetry` | src/jetstream/retry.rs:106-138 | The loop returns what that try's answer comes to, within the number of tries allowed. |
| `DownloadRestarts.WithinCap` | src/jetstream/download.rs:592-708 | No attempt ends with more bytes than the cap. |
| `DownloadRestarts.DownloadWhole` | src/jetstream/download.rs:551-581 | The restart loop, for as many attempts as its caller waits. |
| `DownloadRestarts.ReturnsOneGeneration` | src/jetstream/download.rs:551-581 | Returned bytes passed validation, are within the cap and are all from one answer of the last attempt, the probe's or the whole request's, or the whole object of the one generation that attempt pinned. |
| `DownloadRestarts.BudgetHoldsBelowMax` | src/jetstream/download.rs:551-581 | Every download ends within one attempt more than the restarts allowed, if and only if that number is below 2^32 - 1. |
| `IdentityDirectory.VerifyDeclaredHandle` | src/identity/directory.rs:203-208 | A declared handle is kept exactly when it resolved to the same DID. |
| `IdentityDirectory.InvKept` | src/identity/directory.rs:113-187 | Every atomic step of a lookup or a purge keeps the invariant on generations, entries and results. |
| `IdentityHistory.HistoryKept` | src/identity/directory.rs:113-187 | Every step keeps the account of where cached, held and returned identities came from: a resolution for that DID, begun then, and the handle check that followed. |
| `IdentityHistory.EveryHistory` | src/identity/directory.rs:113-187 | It holds at the end of every run. |
| `IdentityHistory.OnlyWhatWasResolved` | src/identity/directory.rs:129-153 | In every run, each cached and each returned identity holds the document that was resolved for that very DID, and the declared handle exactly if the same lookup's resolution of that handle gave the DID. |
| `IdentityHistory.NeverStale` | src/identity/directory.rs:113-187 | In every interleaving, what a lookup returns that loaded the generation after a purge's increment was resolved after that increment, below 2^64 purges. |
| `IdentityDirectory.ResultsAreFresh` | src/identity/directory.rs:129-153 | In every run with fewer than 2^64 purges, no result began to be resolved before a purge its lookup had seen. |
| `IdentityDirectory.OneHolder` | src/identity/directory.rs:113-187 | In every run at most one thread holds the cache's lock, and the cache never exceeds 1024 entries. |
| `IdentityDirectory.CacheChanges` | src/identity/directory.rs:113-187 | A step adds nothing to the cache but the lock holder's own entry, and removes nothing but the purged entry or, when full, the evicted one; an expired entry is not served. |
| `IdentityDirectory.StaleAfterWrap` | src/identity/directory.rs:113-187 | A run with 2^64 purges in which an old entry is served again. |
| `IdentityDirectory.FreshUntilWrap` | src/identity/directory.rs:113-187 | All runs with a given number of purges are fresh if and only if that number is below 2^64. |

## Left out

- `DecoderModel.Decoder.Decode`: where a failed read leaves the position and the nesting level is not stated.
- `DecoderModel.Decoder.DecodeBump`: on failure the error may be the early refusal of a length or of a key's UTF-8, as `SameFailure` lists; the order of those checks differs in the code.
- `DecoderModel.Decoder.BumpMap`: likewise.
- `MapEntriesModel.MapEntries.TryField`: the callbacks that generated code passes, here and to `Next` and `NextRaw`, are modelled as decoding one value.
- `MapEntriesModel.CollectMap`: when the input is no map, that is the error even if decoding the value would fail otherwise.
- `Encoder.Writer.WriteValue`: of the buffer after an error it is stated only that it still starts with what it held.
- `CarIncremental.IncrementalReader.NextBlock`: after an error the reader is to be discarded, and nothing is said of what it holds.
- `BaseX.Decode`: bases above 2^24 are excluded; the two alphabets in use have 58 and 36 letters.
- `DownloadRestarts.DownloadWhole`: overflow of the restart counter wraps around, as in an optimized build; a debug build stops with a panic there.
- `JsonToDrisl.DrislWriter.SortMap`: the sorted members are kept in a list of their own rather than at the end of the shared stack.
- `JsonToDrisl.JsonToDrislBytes`: an object whose first key is private to the parser makes `EncodeJson` give up, as in the code, but the reference path (`Tree` and `Encode`) then reads it as an ordinary object. What the parser makes of such an object is not part of this model, so for documents that have one the contract is about that reading.
- The JSON tokenizer and its recursion limit: documents are event trees. `JsonReader` reads compact text only, as the conversion writes it: no white space, fractions, exponents or surrogate pairs.
- Float arithmetic: floats are 64-bit patterns with a finiteness test, and JSON numbers are classified from exact reals.
- `parse_link` and base64 decoding: any deterministic functions; `BackToTheSameBytes` assumes that they read what is written.
- UTF-8 validation, pinned down by `Utf8.ValidIffScalars`, is one predicate for the ASCII shortcut, the vectorized check and the full check; block columns are bytes whether or not the shared region was checked as text.
- Capacity estimates, buffer reuse and inline storage; input buffers are shorter than 2^64 bytes and `usize` has 64 bits, so the errors for narrower platforms do not occur.
- I/O errors of the blocking reader and writer, SHA-256 and the comparison of block contents with CIDs (`verify` in `src/car/mod.rs`).
- HTTP, cancellation, the delays between tries, concurrency of requests, and the parsing of Content-Range text: an answer to a request carries its parsed range.
- zstd decompression, segment validation (any predicate on bytes), the block-by-block download and event filtering.
- Clocks and network resolution of identities: expiry, answers and the choice of the evicted entry are free in every step.
- Handles to DIDs: `resolve_handle` and `lookup_handle` beyond what a lookup's result guarantees.
