# wllama core in Dafny

This project models the C++ core of wllama in Dafny and proves properties of the model. The core has three parts:

- **The glue codec** (`cpp/glue.hpp`). This is the binary message format that carries every request and response between the JavaScript side and the C++ worker. A message is the magic number `GLUE`, a version and an 8-byte prototype id, followed by its fields in declaration order. Each field is a 4-byte type tag and a payload. The model has several parts:
  - pure encode and decode functions that specify the format;
  - the output buffer and the input cursor as classes;
  - the handler that serializes and deserializes its registered fields in place;
  - the full catalogue of 43 message types.
- **The wcommon helpers** (`cpp/helpers/wcommon.cpp`). These are the string helpers:
  - strip, replace-all, join, split and repeat;
  - `string_from(bool)`;
  - escape processing;
  - the `KEY=TYPE:VALUE` override parser.

  The same file also holds the llama batch helpers and the longest common prefix and longest common run of two token sequences.
- **`fnv_hash`** (`cpp/utils.hpp`). This is the 64-bit FNV-1a hash.

Modules and files:

| module | file | what it holds |
|---|---|---|
| `GlueWire` | glue_wire.dfy | Bytes, tags, values, fields; the pure encoding (`EncodeField`, `EncodeMessage`); the pure readers (`TakeU32` … `DecodeMessage`), each returning `Truncated` where the source would read past the end |
| `GlueLaws` | glue_laws.dfy | reader/writer inverses, field and message round trips, header checks |
| `GlueTruncation` | glue_truncation.dfy | a message cut short anywhere is rejected |
| `GlueAsWritten` | glue_as_written.dfy | the deserialize switch with its missing `break` after the raw case |
| `GlueBuffers` | glue_buffers.dfy | `glue_outbuf` (class `OutBuf`) and `glue_inbuf` (class `InBuf`) |
| `GlueHandler` | glue_handler.dfy | the element loops, the per-field switch and `glue_handler` (class `Handler`) |
| `GlueCatalogue` | glue_catalogue.dfy | the `glue_msg_*` types, message construction, and the two unit tests as methods |
| `WcommonText` | wcommon_text.dfy | strip, find, replace-all, join, split, repeat, `string_from(bool)` |
| `WcommonEscapes` | wcommon_escapes.dfy | `string_process_escapes` over a character array |
| `WcommonKv` | wcommon_kv.dfy | `string_parse_kv_override` |
| `WcommonBatch` | wcommon_batch.dfy | `llama_batch` (class `Batch`), `wcommon_batch_clear`, `wcommon_batch_add` |
| `WcommonTokens` | wcommon_tokens.dfy | `wcommon_lcp`, `wcommon_lcs` |
| `Fnv` | fnv.dfy | `fnv_hash` |

The code is imperative where the source is. The buffer, cursor, handler and batch are classes with `modifies` clauses. Escape processing rewrites an `array<char>` with two indices. The loops in strip, replace-all, join, split, repeat, lcp, lcs and fnv are `while` loops. Each method is proved against a pure function, and the promised properties are proved as lemmas about that function.

Decisions worth knowing:

- **Bytes and integers.**
  - A byte is an `int` in 0..255.
  - `uint32_t` is an `int` in 0..2^32-1.
  - `int32_t` goes on the wire as its two's-complement pattern.
  - Words are little-endian, as on the WebAssembly target.
  - In `fnv_hash`, `uint64_t` arithmetic is `bv64`, so it wraps modulo 2^64.
- **Floats** are opaque 32-bit patterns. They are carried through unchanged.
- **Strings.** `std::string` is `seq<char>`, with each character standing for one byte.
- **By-reference outputs.** A string or vector the source changes through a reference is returned as a new value. This applies to `string_replace_all` and to the override list.
- **Reading past the end.** Where the source reads past the end of the buffer, the pure readers return `Err(Truncated)`.
- **Untagged fields.** A field whose tag is above 10 is serialized as nothing and reads nothing, as in the switch.
- **Deserialize dispatch.** Deserialize dispatches on the tag the receiving field holds and stores the tag it reads without checking it. Array fields append what they read to the elements they already hold.

## Model

| member | source | states |
|---|---|---|
| GlueWire.U32BytesAre | cpp/glue.hpp:72-76 | a `uint32_t` is written as its four bytes, least significant first |
| GlueWire.U32RoundTrip | cpp/glue.hpp:98-104 | reading back the four bytes of a word gives the word |
| GlueWire.U32BytesOf | cpp/glue.hpp:72-76 | every four bytes are the encoding of the word they read as |
| GlueWire.I32Of | cpp/glue.hpp:105-111 | reading an `int32_t` reinterprets the word; its bit pattern is the word read |
| GlueWire.I32RoundTrip | cpp/glue.hpp:77-81 | an `int32_t` written as its two's-complement pattern reads back unchanged |
| GlueWire.Len32 | cpp/glue.hpp:266-272 | a `size()` stored in a `uint32_t` is the size itself whenever it fits |
| GlueWire.Code | cpp/glue.hpp:38-51 | every value kind has a tag from 1 to 10, never the NULL tag 0 |
| GlueWire.CodeInjective | cpp/glue.hpp:38-51 | distinct kinds have distinct tags |
| GlueWire.Fresh | cpp/glue.hpp:167-177 | a constructed field is not null and holds a value of its kind |
| GlueWire.TakeU32 | cpp/glue.hpp:98-104 | `read_u32` succeeds exactly when four bytes remain, splits off the word's encoding, and otherwise fails with Truncated |
| GlueWire.TakeBytes | cpp/glue.hpp:119-134 | `read_str`/`read_raw` of `size` succeed exactly when `size` bytes remain and split them off |
| GlueWire.TakeWords | cpp/glue.hpp:308-316 | the element loop reads exactly `n` scalars or fails with Truncated |
| GlueWire.TakeBlobs | cpp/glue.hpp:308-316 | the element loop reads exactly `n` length-prefixed elements or fails with Truncated |
| GlueWire.DecodePayload | cpp/glue.hpp:198-316 | a field's parse yields a value of the field's own kind; the only failure is Truncated |
| GlueWire.DecodeField | cpp/glue.hpp:430-467 | a field read keeps the receiving field's name and kind |
| GlueWire.DecodeFields | cpp/glue.hpp:430-467 | the fields are read by position, one result per receiving field |
| GlueLaws.TakeU32Of | cpp/glue.hpp:98-104 | `read_u32` after `append_u32(x)` gives `x` and leaves the rest |
| GlueLaws.TakeBlobOf | cpp/glue.hpp:140-149 | a length-prefixed string or buffer reads back exactly, leaving the rest |
| GlueLaws.TakeBlobEncodes | cpp/glue.hpp:140-149 | what the blob reader accepts is a length, those bytes, then the rest |
| GlueLaws.TakeWordsOf | cpp/glue.hpp:308-316 | `n` packed scalars read back as the same `n` scalars |
| GlueLaws.TakeBlobsOf | cpp/glue.hpp:308-316 | `n` length-prefixed elements read back as the same elements |
| GlueLaws.TakeBlobsEncodes | cpp/glue.hpp:308-316 | what the element loop accepts is the encoding of the elements it returns |
| GlueLaws.TakeWordsCons | cpp/glue.hpp:311-315 | reading `n` scalars is one scalar, then `n - 1` more |
| GlueLaws.TakeWordsUncons | cpp/glue.hpp:311-315 | a successful read of `n` scalars starts with a successful single read |
| GlueLaws.TakeBlobsCons | cpp/glue.hpp:311-315 | reading `n` elements is one element, then `n - 1` more |
| GlueLaws.TakeBlobsUncons | cpp/glue.hpp:311-315 | a successful read of `n` elements starts with a successful single read |
| GlueLaws.TakeCountedWordsOf | cpp/glue.hpp:304-327 | an array's count and scalars read back as the same array |
| GlueLaws.TakeCountedBlobsOf | cpp/glue.hpp:339-355 | an array's count and length-prefixed elements read back as the same array |
| GlueLaws.IntWordsRoundTrip | cpp/glue.hpp:342-344 | int array elements survive the trip through their bit patterns |
| GlueLaws.AppendedToDefault | cpp/glue.hpp:298-316 | appending the read elements to a fresh field's empty array gives exactly the elements read |
| GlueLaws.PayloadRoundTrip | cpp/glue.hpp:198-327 | every payload the field serializers write is read back by the matching parse; arrays are appended to what the field held |
| GlueLaws.BoolDecodesNonZero | cpp/glue.hpp:198-204 | a bool reads any non-zero word as true and zero as false |
| GlueLaws.NullTagReadsNoPayload | cpp/glue.hpp:181-190 | a NULL tag makes the field null, reads nothing more and keeps its stored value |
| GlueLaws.TagStoredUnchecked | cpp/glue.hpp:181-190 | any non-NULL tag read is stored as the field's dtype unchecked, and the field's own parser reads the payload |
| GlueLaws.FieldRoundTrip | cpp/glue.hpp:367-467 | a field serialized and parsed into a receiving field of its kind gives the received field, leaving the rest |
| GlueLaws.FreshFieldRoundTrip | cpp/glue.hpp:367-467 | a freshly constructed receiving field reads a non-null field back exactly |
| GlueLaws.EncodeFieldsAppend | cpp/glue.hpp:367-406 | the fields are serialized one after another with nothing between them |
| GlueLaws.FieldsRoundTrip | cpp/glue.hpp:430-467 | a sequence of fields read back into receiving fields of the same kinds gives each field its received value |
| GlueLaws.Restored | cpp/glue.hpp:181-190 | a received field has the sent field's name, tag and kind, and equals it when not null |
| GlueLaws.FreshReceivesRestored | cpp/glue.hpp:181-190 | a fresh message receiving the fields ends with each sent field restored |
| GlueLaws.MessageRoundTrip | cpp/glue.hpp:359-467 | serializing a message and deserializing it into a fresh message of the same type succeeds, consumes everything and restores every field |
| GlueLaws.FreshFieldsRoundTrip | cpp/glue.hpp:430-467 | the fields part of the message round trip |
| GlueLaws.RestoredNoNull | cpp/glue.hpp:181-190 | with no null field the received fields equal the sent ones |
| GlueLaws.ReencodeIdentical | cpp/glue.hpp:367-406 | re-serializing the received fields gives exactly the bytes that were sent |
| GlueLaws.HeaderLayout | cpp/glue.hpp:359-364 | a message starts with the bytes "GLUE", then version 1, then the 8-byte prototype id |
| GlueLaws.MagicVersionBytes | cpp/glue.hpp:24-26 | the magic `0x45554c47` is the bytes "GLUE"; the version is 1 |
| GlueLaws.HeaderThen | cpp/glue.hpp:411-427 | a well-formed header is accepted and what follows is handed on unchanged |
| GlueLaws.HeaderAccepted | cpp/glue.hpp:411-427 | the header check passes exactly when the first 16 bytes are this type's header |
| GlueLaws.BadMagicRejected | cpp/glue.hpp:411-415 | a wrong magic number is reported first, with the number read |
| GlueLaws.WrongVersionRejected | cpp/glue.hpp:417-421 | with the right magic, a wrong version is reported next |
| GlueLaws.OtherPrototypeRejected | cpp/glue.hpp:423-427 | a message of another type is rejected with both prototype ids |
| GlueTruncation.TakeU32Extends | cpp/glue.hpp:98-104 | a word read from a prefix reads the same from any extension of it |
| GlueTruncation.TakeBytesExtends | cpp/glue.hpp:119-134 | a byte read from a prefix reads the same from any extension |
| GlueTruncation.TakeBlobExtends | cpp/glue.hpp:140-149 | a blob read from a prefix reads the same from any extension |
| GlueTruncation.TakeWordsExtends | cpp/glue.hpp:308-316 | an element loop over scalars reads the same from any extension |
| GlueTruncation.TakeBlobsExtends | cpp/glue.hpp:308-316 | an element loop over blobs reads the same from any extension |
| GlueTruncation.TakeCountedWordsExtends | cpp/glue.hpp:304-316 | a scalar array reads the same from any extension |
| GlueTruncation.TakeCountedBlobsExtends | cpp/glue.hpp:304-316 | a string or raw array reads the same from any extension |
| GlueTruncation.PayloadExtends | cpp/glue.hpp:198-316 | a payload reads the same from any extension |
| GlueTruncation.FieldExtends | cpp/glue.hpp:430-467 | a field reads the same from any extension |
| GlueTruncation.FieldsExtends | cpp/glue.hpp:430-467 | a run of fields reads the same from any extension |
| GlueTruncation.HeaderCut | cpp/glue.hpp:411-427 | a header cut short before 16 bytes fails with Truncated |
| GlueTruncation.TruncatedMessageRejected | cpp/glue.hpp:409-467 | every proper prefix of a serialized message fails with Truncated instead of reading past the end |
| GlueAsWritten.AgreesWithoutRaw | cpp/glue.hpp:430-467 | where no receiving field is raw, the switch as written behaves as the corrected reader |
| GlueAsWritten.RawReadsAnotherTag | cpp/glue.hpp:450-453 | after a raw field, the fall-through reads the next 4 bytes as another tag. It fails if they are missing, makes the field null if they are the NULL tag, and is undefined otherwise |
| GlueAsWritten.AsWrittenThen | cpp/glue.hpp:430-467 | a field read to completion leaves an undefined or truncated outcome to the fields after it |
| GlueAsWritten.PassesThrough | cpp/glue.hpp:430-467 | a non-raw field is read by the switch as written exactly as by the corrected reader |
| GlueAsWritten.RawOnlyReadsPastEnd | cpp/glue.hpp:450-453 | a message that is one raw field with a value makes the switch read past the end |
| GlueAsWritten.RawLastReadsPastEnd | cpp/glue.hpp:450-453 | a raw field with a value as the last field makes the switch read past the end |
| GlueAsWritten.RawFirstUndefined | cpp/glue.hpp:450-453 | a raw field followed by a non-null field makes the read undefined |
| GlueAsWritten.RawThenValueUndefined | cpp/glue.hpp:450-453 | anywhere in a message, a raw field with a value followed by a non-null field makes the read undefined |
| GlueBuffers.OutBuf.constructor | cpp/glue.hpp:58-61 | a new output buffer is empty |
| GlueBuffers.OutBuf.Append | cpp/glue.hpp:62-71 | `append`/`append_str` add the bytes at the end and change nothing else |
| GlueBuffers.OutBuf.AppendU32 | cpp/glue.hpp:72-76 | `append_u32` adds the word's four bytes |
| GlueBuffers.OutBuf.AppendI32 | cpp/glue.hpp:77-81 | `append_i32` adds the four bytes of the two's-complement pattern |
| GlueBuffers.OutBuf.AppendF32 | cpp/glue.hpp:82-86 | `append_f32` adds the four bytes of the float's pattern |
| GlueBuffers.OutBuf.Clear | cpp/glue.hpp:87-90 | `clear` empties the buffer |
| GlueBuffers.InBuf.constructor | cpp/glue.hpp:97 | a new cursor starts at the beginning of the data |
| GlueBuffers.InBuf.ReadU32 | cpp/glue.hpp:98-104 | the cursor read returns what `TakeU32` returns and advances past exactly those bytes |
| GlueBuffers.InBuf.ReadI32 | cpp/glue.hpp:105-111 | the word is reinterpreted as an `int32_t`; the cursor advances 4 bytes |
| GlueBuffers.InBuf.ReadF32 | cpp/glue.hpp:112-118 | the float's pattern is read; the cursor advances 4 bytes |
| GlueBuffers.InBuf.ReadBytes | cpp/glue.hpp:119-134 | `read_str`/`read_raw` return `size` bytes and advance by `size` |
| GlueBuffers.InBuf.ReadBlob | cpp/glue.hpp:140-149 | the array element reader reads a size then that many bytes |
| GlueHandler.WordsSnoc | cpp/glue.hpp:323-326 | writing one more scalar extends the element encoding by its four bytes |
| GlueHandler.BlobsSnoc | cpp/glue.hpp:323-326 | writing one more string or raw element extends the encoding by that element's blob |
| GlueHandler.SerializeWords | cpp/glue.hpp:339-347 | the bool and float array loops append the packed elements |
| GlueHandler.SerializeInts | cpp/glue.hpp:342-344 | the int array loop appends each element's two's-complement pattern |
| GlueHandler.SerializeBlobs | cpp/glue.hpp:348-355 | the string and raw array loops append each element's size and bytes |
| GlueHandler.SerializePayload | cpp/glue.hpp:205-327 | each field kind's serializer appends exactly the payload of its value |
| GlueHandler.SerializeField | cpp/glue.hpp:367-406 | the serialize switch appends exactly the field's encoding |
| GlueHandler.EncodeFieldsSnoc | cpp/glue.hpp:367-406 | serializing one more field appends its encoding |
| GlueHandler.SerializeStep | cpp/glue.hpp:359-406 | the serialize loop's output after `i + 1` fields is the header and those fields |
| GlueHandler.TakeWordsSnoc | cpp/glue.hpp:311-315 | one more scalar read extends what the loop has read |
| GlueHandler.TakeWordsStops | cpp/glue.hpp:311-315 | a scalar that cannot be read stops the whole array read with Truncated |
| GlueHandler.TakeBlobsSnoc | cpp/glue.hpp:311-315 | one more element read extends what the loop has read |
| GlueHandler.TakeBlobsStops | cpp/glue.hpp:311-315 | an element that cannot be read stops the whole array read with Truncated |
| GlueHandler.DecodeFieldsStep | cpp/glue.hpp:430-467 | a read field is followed by the reads of the fields after it |
| GlueHandler.ParseWords | cpp/glue.hpp:308-316 | the bool, int and float array element loop reads what `TakeWords` reads and advances the cursor the same way |
| GlueHandler.ParseBlobs | cpp/glue.hpp:308-316 | the string and raw array element loop reads what `TakeBlobs` reads |
| GlueHandler.ParseCountedWords | cpp/glue.hpp:304-316 | a scalar array's count and elements are read as `TakeCountedWords` reads them |
| GlueHandler.ParseCountedBlobs | cpp/glue.hpp:304-316 | a string or raw array's count and elements are read as `TakeCountedBlobs` reads them |
| GlueHandler.ParsePayload | cpp/glue.hpp:198-316 | each kind's parser reads what `DecodePayload` reads, appending arrays to the held elements |
| GlueHandler.ParseField | cpp/glue.hpp:430-467 | one case of the deserialize switch reads what `DecodeField` reads |
| GlueHandler.Handler.constructor | cpp/glue.hpp:153-158 | a handler is named by its prototype id and has no fields yet |
| GlueHandler.Handler.RegisterField | cpp/glue.hpp:159-162 | a constructed field registers itself last, with its kind's tag and default value |
| GlueHandler.Handler.SetNull | cpp/glue.hpp:180 | `set_null` changes only the tag; the stored value stays |
| GlueHandler.Handler.SetValue | cpp/test_glue.cpp:17-22 | assigning `.value` changes only that field's value, not its tag |
| GlueHandler.Handler.Serialize | cpp/glue.hpp:359-407 | the output is cleared and then holds exactly the header and every field in order |
| GlueHandler.Handler.Deserialize | cpp/glue.hpp:409-467 | on success the fields become what `DecodeMessage` gives and the cursor stops after the message; on an error the error is reported and the fields are untouched |
| GlueCatalogue.IdBytes | cpp/glue.hpp:470-475 | a prototype id is 8 characters, each going out as its byte |
| GlueCatalogue.FreshFields | cpp/glue.hpp:476-478 | a constructed message holds one non-null default field per declaration, in declaration order, with its kind's tag |
| GlueCatalogue.NewMessage | cpp/glue.hpp:476-478 | constructing a message registers exactly its declared fields, in order, under its prototype id |
| GlueCatalogue.FreshFieldsReceive | cpp/glue.hpp:476-478 | a fresh message of a type can receive every message of that type |
| GlueCatalogue.SchemaRoundTrip | cpp/glue.hpp:359-467 | for every message type, serializing and deserializing into a fresh message restores every field |
| GlueCatalogue.FreshConforms | cpp/glue.hpp:482-515 | a constructed message conforms to its type, is sendable and has no null field |
| GlueCatalogue.AssignedHolds | cpp/test_glue.cpp:17-22 | after storing values in distinct fields, each holds its stored value and the others are unchanged |
| GlueCatalogue.AssignConforms | cpp/test_glue.cpp:17-22 | storing a value of the field's kind keeps a message conforming and sendable |
| GlueCatalogue.Exchange | cpp/test_glue.cpp:15-72 | the unit tests' exchange is stated for any message type and values. The receiver succeeds and holds exactly the sender's fields |
| GlueCatalogue.LoadRequestStorable | cpp/test_glue.cpp:16-22 | the values the load-request test stores fit their fields |
| GlueCatalogue.LoadRequestValues | cpp/test_glue.cpp:35-40 | after those assignments the inspected fields hold the stored values |
| GlueCatalogue.LoadRequestTest | cpp/test_glue.cpp:15-41 | the load-request test's assertions hold after the exchange |
| GlueCatalogue.SamplingInitStorable | cpp/test_glue.cpp:44-51 | the values the sampling-init test stores fit their fields |
| GlueCatalogue.SamplingInitValues | cpp/test_glue.cpp:64-71 | after those assignments the inspected fields hold the stored values |
| GlueCatalogue.SamplingInitTest | cpp/test_glue.cpp:43-72 | the sampling-init test's assertions hold after the exchange, float patterns compared exactly |
| GlueCatalogue.DetokenizeResponseAsWritten | cpp/glue.hpp:643-648 | as written, a `dtkn_res` carrying a buffer makes the receiver read past the end |
| GlueCatalogue.SampleResponseAsWritten | cpp/glue.hpp:690-696 | as written, an `ssam_res` with a piece and a token makes the receiver's read undefined |
| WcommonText.SkipSpaceFacts | cpp/helpers/wcommon.cpp:55-57 | the start skips exactly the leading whitespace |
| WcommonText.DropSpaceFacts | cpp/helpers/wcommon.cpp:58-60 | the end pulls back over exactly the trailing whitespace |
| WcommonText.Strip | cpp/helpers/wcommon.cpp:52-62 | the two loops return `Stripped(str)` |
| WcommonText.StrippedCore | cpp/helpers/wcommon.cpp:52-62 | the result does not start or end with whitespace and is a contiguous piece of the input with only whitespace around it |
| WcommonText.StripIdempotent | cpp/helpers/wcommon.cpp:52-62 | stripping twice gives the same as stripping once |
| WcommonText.StrippedEmpty | cpp/helpers/wcommon.cpp:52-62 | the result is empty exactly when the input is all whitespace |
| WcommonText.FindFacts | cpp/helpers/wcommon.cpp:88 | `find` gives an occurrence at or after the start with none before it, or reports there is none |
| WcommonText.FindSkip | cpp/helpers/wcommon.cpp:88 | a position without an occurrence is passed over |
| WcommonText.FindFirst | cpp/helpers/wcommon.cpp:88 | the first occurrence from the start is what `find` returns |
| WcommonText.ReplacedGap | cpp/helpers/wcommon.cpp:88-89 | text before the next occurrence is copied verbatim |
| WcommonText.ReplacedNext | cpp/helpers/wcommon.cpp:88-91 | the next occurrence found is replaced and the search resumes after it |
| WcommonText.ReplacedRest | cpp/helpers/wcommon.cpp:93 | once nothing more is found the rest is copied |
| WcommonText.ReplaceLoopStep | cpp/helpers/wcommon.cpp:88-91 | one loop iteration keeps the builder plus the remaining replacement equal to the full replacement |
| WcommonText.ReplaceAll | cpp/helpers/wcommon.cpp:80-95 | an empty search leaves the string unchanged; otherwise the result is the left-to-right non-overlapping replacement |
| WcommonText.ReplacedAbsent | cpp/helpers/wcommon.cpp:80-95 | with no occurrence nothing changes |
| WcommonText.ReplacedSelf | cpp/helpers/wcommon.cpp:80-95 | replacing a string by itself changes nothing |
| WcommonText.ReplacedLength | cpp/helpers/wcommon.cpp:80-95 | the length changes by the count of occurrences times the length difference |
| WcommonText.JoinedSnoc | cpp/helpers/wcommon.cpp:97-106 | one more value adds the separator and the value |
| WcommonText.Join | cpp/helpers/wcommon.cpp:97-106 | the loop gives the values with the separator between each two |
| WcommonText.PiecesGap | cpp/helpers/wcommon.cpp:111-116 | characters before the next delimiter extend the current part |
| WcommonText.PiecesNext | cpp/helpers/wcommon.cpp:113-117 | the next delimiter found ends the current part |
| WcommonText.PiecesRest | cpp/helpers/wcommon.cpp:119 | after the last delimiter the rest is the last part |
| WcommonText.SplitLoopStep | cpp/helpers/wcommon.cpp:113-117 | one loop iteration keeps the parts so far plus the remaining parts equal to all parts |
| WcommonText.Split | cpp/helpers/wcommon.cpp:108-122 | with a non-empty delimiter, the loop returns the parts between the delimiters |
| WcommonText.EmptyDelimiterStalls | cpp/helpers/wcommon.cpp:113-116 | with an empty delimiter the search succeeds where it starts, so the loop goes on and its next start is the same position |
| WcommonText.JoinedCons | cpp/helpers/wcommon.cpp:97-106 | joining a value in front of others puts the separator after it |
| WcommonText.JoinedExtend | cpp/helpers/wcommon.cpp:97-106 | a character in front of the first part is in front of the joined string |
| WcommonText.JoinPieces | cpp/helpers/wcommon.cpp:97-122 | joining the parts of a split with its delimiter gives the string back |
| WcommonText.PiecesCount | cpp/helpers/wcommon.cpp:108-122 | there is one more part than there are occurrences of the delimiter |
| WcommonText.Repeat | cpp/helpers/wcommon.cpp:124-137 | nothing for `n = 0`, otherwise `n` copies |
| WcommonText.RepeatedLength | cpp/helpers/wcommon.cpp:124-137 | the result's length is `|str| * n` |
| WcommonText.RepeatedIsJoin | cpp/helpers/wcommon.cpp:124-137 | repeating is joining `n` copies with no separator |
| WcommonEscapes.DecodeAt | cpp/helpers/wcommon.cpp:232-258 | one iteration writes the decoded token at the output index, which never passes the input index, and leaves the unread characters alone |
| WcommonEscapes.DecodeLoopStep | cpp/helpers/wcommon.cpp:231-259 | one iteration keeps the written prefix plus the decoding of the rest equal to the decoding of the whole input |
| WcommonEscapes.ProcessEscapes | cpp/helpers/wcommon.cpp:227-262 | the string is cut to a length no longer than it was, and its prefix is the decoding of the original |
| WcommonEscapes.UnescapeShorter | cpp/helpers/wcommon.cpp:227-262 | decoding never makes the string longer |
| WcommonEscapes.UnescapePlain | cpp/helpers/wcommon.cpp:227-262 | a string without backslashes is unchanged |
| WcommonEscapes.UnescapeFront | cpp/helpers/wcommon.cpp:231-259 | decoding is the first token, then the decoding of what follows it |
| WcommonEscapes.UnescapeChar | cpp/helpers/wcommon.cpp:256-257 | a plain character is copied |
| WcommonEscapes.UnescapeSimple | cpp/helpers/wcommon.cpp:233-239 | `\n \r \t \' \" \\` become one character |
| WcommonEscapes.UnescapeHex | cpp/helpers/wcommon.cpp:240-250 | `\x` and two characters that `strtol` reads fully become one byte |
| WcommonEscapes.HexPairDigits | cpp/helpers/wcommon.cpp:243-246 | two hex digits give the byte they spell |
| WcommonEscapes.BadHexToken | cpp/helpers/wcommon.cpp:240-254 | `\x` without two characters `strtol` accepts is a two-character token kept as is |
| WcommonEscapes.UnescapeBadHex | cpp/helpers/wcommon.cpp:240-254 | such a `\x` is kept verbatim |
| WcommonEscapes.KeptEscape | cpp/helpers/wcommon.cpp:240-254 | a backslash before a character that starts no escape is kept with it |
| WcommonEscapes.UnescapeUnknown | cpp/helpers/wcommon.cpp:253-254 | an unknown escape keeps the backslash and the character |
| WcommonEscapes.HexPairQuirks | cpp/helpers/wcommon.cpp:243-246 | `strtol` accepts a sign or a space before a single hex digit; `0x` is not a full read |
| WcommonEscapes.LastToken | cpp/helpers/wcommon.cpp:231-258 | the token that ends on a final backslash decodes to a backslash |
| WcommonEscapes.UnescapeTrailing | cpp/helpers/wcommon.cpp:231-259 | a trailing backslash survives decoding |
| WcommonKv.LeadingDigits | cpp/helpers/wcommon.cpp:277 | the digits `atol` reads are the longest run of digits at the front |
| WcommonKv.ParseKvOverride | cpp/helpers/wcommon.cpp:264-308 | at most one override is appended, after the old ones unchanged; on success its key is under 128 characters, has no `=` and is followed by `=` in the input |
| WcommonKv.NoSeparator | cpp/helpers/wcommon.cpp:265-269 | without `=` the result is false and nothing is appended |
| WcommonKv.KeyTooLong | cpp/helpers/wcommon.cpp:265-269 | a key of 128 or more characters gives false and nothing appended |
| WcommonKv.UnknownType | cpp/helpers/wcommon.cpp:302-305 | an unknown type prefix gives false and nothing appended |
| WcommonKv.BadBool | cpp/helpers/wcommon.cpp:282-292 | a bool that is not `true` or `false` gives false and nothing appended |
| WcommonKv.StrTooLong | cpp/helpers/wcommon.cpp:293-301 | a str value over 127 characters gives false and nothing appended |
| WcommonKv.KeyFound | cpp/helpers/wcommon.cpp:265-273 | the key is everything before the first `=` |
| WcommonKv.AfterKey | cpp/helpers/wcommon.cpp:264-308 | for a key without `=`, the result is false for a long key or a bad value, and otherwise exactly one override is appended |
| WcommonKv.TypedInt | cpp/helpers/wcommon.cpp:274-277 | an `int:` value is read by `atol` |
| WcommonKv.TypedBool | cpp/helpers/wcommon.cpp:282-292 | a `bool:` value is exactly `true` or `false` |
| WcommonKv.TypedStr | cpp/helpers/wcommon.cpp:293-301 | a `str:` value is kept when it has at most 127 characters |
| WcommonKv.BoolRoundTrip | cpp/helpers/wcommon.cpp:139-141 | the text `string_from(b)` parses back to the bool `b` |
| WcommonKv.StrRoundTrip | cpp/helpers/wcommon.cpp:293-307 | a short string value is appended as it is |
| WcommonKv.Decimal | cpp/helpers/wcommon.cpp:274-277 | a number's decimal text is a non-empty run of digits |
| WcommonKv.DecimalValueOf | cpp/helpers/wcommon.cpp:274-277 | the value of a number's decimal text is the number |
| WcommonKv.AllDigitsLead | cpp/helpers/wcommon.cpp:277 | `atol` reads all of a string of digits |
| WcommonKv.AtolDecimal | cpp/helpers/wcommon.cpp:277 | `atol` reads a signed decimal text back to its integer |
| WcommonKv.IntRoundTrip | cpp/helpers/wcommon.cpp:274-277 | an `int:` override of a number's text appends that number |
| WcommonBatch.Batch.constructor | cpp/actions.hpp:246 | a new batch is empty and has room for `capacity` tokens |
| WcommonBatch.Batch.Entries | cpp/helpers/wcommon.cpp:318-335 | the slots in use, in order, each as its token, position, sequence ids and logits flag |
| WcommonBatch.Batch.Clear | cpp/helpers/wcommon.cpp:314-316 | only `n_tokens` becomes 0; no slot's arrays change |
| WcommonBatch.Batch.Add | cpp/helpers/wcommon.cpp:318-335 | slot `n_tokens` gets the token, position, sequence ids and logits flag; other slots stay the same; the count goes up by one and the entries gain exactly the new one |
| WcommonBatch.Batch.WriteSeqIds | cpp/helpers/wcommon.cpp:329-331 | the copy loop writes the sequence ids at the front of the slot's row and nothing else |
| WcommonBatch.Batch.AddedEntries | cpp/helpers/wcommon.cpp:318-335 | the entries after an add are the old entries and the new one |
| WcommonTokens.Lcp | cpp/helpers/wcommon.cpp:341-346 | the result is a common prefix length, and no longer prefix is common |
| WcommonTokens.Lcs | cpp/helpers/wcommon.cpp:348-395 | the result is the largest entry of the common-suffix table, and 0 when either input is empty |
| WcommonTokens.FillRow | cpp/helpers/wcommon.cpp:366-387 | one pass of the inner loop fills row `i` of the table and raises the maximum to the row's largest entry |
| WcommonTokens.RunIsCommon | cpp/helpers/wcommon.cpp:369-376 | each table entry is the length of a common run ending at those positions |
| WcommonTokens.RunIsLongest | cpp/helpers/wcommon.cpp:369-383 | every common run ending at those positions is at most the table entry |
| WcommonTokens.CommonRunBound | cpp/helpers/wcommon.cpp:348-395 | no contiguous run common to both inputs is longer than the result |
| WcommonTokens.CommonRunWitness | cpp/helpers/wcommon.cpp:348-395 | some contiguous run of the result's length occurs in both inputs, so the result is at most the shorter length |
| WcommonTokens.PrefixWithinRun | cpp/helpers/wcommon.cpp:341-395 | the common prefix is never longer than the longest common run |
| Fnv.FnvHash | cpp/utils.hpp:13-24 | the loop computes `Hash(data[..len])`, so the result depends only on the first `len` bytes |
| Fnv.FoldFromSnoc | cpp/utils.hpp:18-22 | folding one more byte applies one more xor-then-multiply step |
| Fnv.HashIsFold | cpp/utils.hpp:15-23 | the hash is the left fold of the step from the offset basis |
| Fnv.FoldFromAppend | cpp/utils.hpp:18-22 | hashing can be resumed: the fold over `x + y` continues from the fold over `x` |
| Fnv.HashAppend | cpp/utils.hpp:13-24 | the hash of `x + y` is the hash of `x` continued over `y` |
| Fnv.TestVectors | cpp/utils.hpp:15-16 | the empty input hashes to the offset basis, and "a" to `0xaf63dc4c8601ec8c` |

## Left out

- The `GLUE_DEBUG` tracing, the file dumps in the unit tests, and the exceptions' message text are I/O. A failed header check is a `Result` error that names the check and the values involved.
- Floats in the codec are opaque 32-bit patterns, with no arithmetic on them. The unit test's `cmp_float` becomes exact equality of the stored pattern.
- `Truncated` is not in the source. The source reads past the end of the buffer, which is undefined behaviour; the model reports an error there instead.
- A field whose tag is between 1 and 10 but is not its own kind makes the source cast it to the wrong struct, which is undefined behaviour. Such fields are excluded by the `Dispatchable` precondition.
- Fields are values held by the handler's field list. Aliasing between a field object and the handler is not modelled.
- Catalogue-wide facts are not proved over all 43 types at once: that the prototype ids are distinct, and that every id is well formed. Each property is proved per type, for any type that meets the requirements.
- Byte order is little-endian, as on the WebAssembly target; a big-endian host is not modelled.
- WcommonKv.Atol: does not model `long` overflow. The value is an unbounded integer.
- WcommonKv.ParseTypedValue: a `float:` value is kept as its text, because `atof` is floating point.
- The override's fixed-size `key` and `val_str` buffers are not modelled; the key and string value are sequences that are checked against 128 and 127.
- WcommonText.Split: requires a non-empty delimiter. With an empty delimiter the source's loop never ends; that behaviour is recorded under "## Findings" and shown by `WcommonText.EmptyDelimiterStalls`.
- WcommonText.ReplaceAll: the string passed by reference is returned as the new value. `string_parse_kv_override` likewise returns the new override list.
- WcommonBatch.Batch.constructor: stands for `llama_batch_init`, as called at cpp/actions.hpp:246. That allocator is llama code outside the core; the model only states the empty batch and the room it has.
- WcommonBatch.Batch.Add: the source aborts when the batch is full (`GGML_ASSERT`). The model makes that a precondition. A row of sequence ids longer than the row's room is also excluded, because the source would write past it.
- WcommonTokens.Lcs: the source's comments call the result a "longest common subsequence". What it computes, and what the model proves, is the longest common contiguous run.
- Characters stand for bytes. There is no UTF-8 handling, because the source works byte by byte.
- `string_format`, `string_get_sortable_timestamp`, `string_from(ctx, …)`, `string_from(std::vector<int>)`, `wcommon_tokenize`, `wcommon_token_to_piece`, `wcommon_detokenize`, `wcommon_chat_apply_template`, `wcommon_embd_normalize` and `wcommon_embd_similarity_cos` are not part of this model. They are formatting through `vsnprintf` or a stream, the clock, wrappers over llama, or floating-point numerics.
- `cpp/actions.hpp` (apart from the `llama_batch_init` call above), `cpp/wllama.cpp`, `cpp/helpers/wsampling.h` and the older JSON protocol at the repository root are not part of this model.

## Findings

| source | as written | input that shows it | evidently intended | confidence | as-written member | corrected member |
|---|---|---|---|---|---|---|
| cpp/glue.hpp:450-452 | the `GLUE_DTYPE_RAW` case of `deserialize` has no `break`, so a parsed raw field is parsed again as an array of bool | a `dtkn_res` whose `buffer` holds bytes: the second parse reads a tag past the end of the message. In an `ssam_res` with a `piece` and a `token`, the token's tag is read as the raw field's tag and the array parse runs on a `std::vector<char>` | a `break` after the raw parse, as in every other case. In the C++ program the defect is latent: it deserializes only requests (`PARSE_REQ`, cpp/actions.hpp:16-19), and the two messages with a raw field, `dtkn_res` (glue.hpp:647) and `ssam_res` (:694), are responses that it serializes. The `arr_raw` case, used by `gvoc_res` (:601), is the last in the switch and is not affected | not executed | GlueAsWritten.RawLastReadsPastEnd | GlueLaws.FieldsRoundTrip |
| cpp/helpers/wcommon.cpp:111-117 | `string_split` searches for the delimiter from `end + delimiter.length()` | an empty delimiter: `find("", start)` returns `start`, so the next start is the same position and the loop never ends | a non-empty delimiter, or an empty one rejected | not executed | WcommonText.EmptyDelimiterStalls | WcommonText.Split |
