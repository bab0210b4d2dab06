# muDB request path in Dafny

A model of the request path of muDB, a small Redis-compatible key-value server written in Rust. The path has three stages:

- **Bytes to frame.** The RESP codec (`src/resp/types.rs`, `src/resp/frame.rs`) parses single RESP values: simple strings, bulk strings and simple errors. `RespCommandFrame` reassembles a command, sent as an array of bulk strings, from a byte buffer that may hold only part of it.
- **Frame to command.** The command layer (`src/command/*.rs`) checks the arguments of PING, GET, SET, LPUSH, RPUSH and LRANGE (`with_args`). It dispatches on the command name without regard to case, and runs the command against the store (`apply`, `execute`).
- **Store.** The store (`src/storage/db.rs`) is a key space of entries. `set` refuses to overwrite a key that holds a value of another kind.

The files are modelled as follows:

| file | source | form |
|---|---|---|
| `wrappers.dfy` | — | `Option`, `Result` and `Unit`. |
| `utf8.dfy` | — | UTF-8 encoding and decoding of Unicode scalar values, proved inverse. `Encode` and `Decode` are reference definitions of the standard library's `into_bytes` and `String::from_utf8`. |
| `int_text.dfy` | — | Decimal text of integers, and Rust's `parse::<usize>()` and `parse::<i64>()`. |
| `resp_types.dfy` | `src/resp/mod.rs`, `src/resp/types.rs` | `RespError`, and the parser and serialiser as functions over byte sequences. |
| `resp_frame.dfy` | `src/resp/frame.rs` | See the note below this table. |
| `storage.dfy` | `src/storage/mod.rs`, `src/storage/db.rs` | `DBError`, and the `DB` class over a `map<string, Entry>` field. |
| `command_error.dfy` | `src/command/mod.rs` | `CommandError` and the shared argument error messages. |
| `ping.dfy`, `get.dfy`, `set.dfy`, `push.dfy`, `lrange.dfy` | `src/command/*.rs` | One module per command. LPUSH and RPUSH differ only in their name, so one module covers both, with the name as a parameter. |
| `command.dfy` | `src/command/mod.rs` | The `Command` datatype, the dispatcher, and `Execute`. |

`resp_frame.dfy` holds the frame decoder as imperative code:

- The classes are `RespCommandFrame`, with a nullable `cmdBuilder` field, `CommandBuilder`, and a `BytesMut` buffer consumed from the front.
- Its `Decode` method is proved to compute the pure function `DecodeSpec`.
- The properties of decoding are proved about `DecodeSpec`:
  - what is consumed;
  - what is kept while data is missing;
  - resumption across reads;
  - round trips of whole commands.

The two ends are joined by `Commands.CommandFromBytes`. The bytes a client sends for any well-formed command decode, in one call, to that command's frame, and the dispatcher parses the frame back into the command.

## Model

| member | source | states |
|---|---|---|
| Resp.RespError.ToString | src/resp/mod.rs:17-25 | Every parse error displays as its message alone. |
| Utf8.Encode | src/resp/types.rs:160-165 | The bytes of a `String`: every character takes at least one byte. `DecodeEncode` and `EncodeDecode` pair it with `Decode`, the meaning of `String::from_utf8` at src/resp/types.rs:81, 108 and 141. |
| Utf8.DecodeEncode | src/resp/types.rs:160-165 | Decoding the UTF-8 bytes of any text gives the text back. |
| Utf8.EncodeDecode | src/resp/types.rs:81 | Bytes that `from_utf8` accepts are exactly the encoding of the text it returns. |
| Utf8.EncodeChar | src/resp/types.rs:160-165 | A scalar value takes 1 to 4 bytes, one byte exactly for ASCII, and multi-byte forms contain no ASCII byte. |
| Utf8.EncodeDecodeChar | src/resp/types.rs:81 | The bytes of one scalar value decode back to it, whatever follows them. |
| Utf8.EncodeAscii | src/resp/types.rs:160-165 | For ASCII text, bytes and characters correspond one for one. |
| Utf8.EncodeAvoidsAsciiByte | src/resp/types.rs:127-135 | An ASCII byte such as CR appears in the encoding only where its character appears in the text. |
| Utf8.EncodeAppend | src/resp/types.rs:160-165 | The encoding of joined texts is the joined encodings. |
| IntText.NatToString | src/resp/types.rs:162 | The decimal form of a number is non-empty, all digits, and has no leading zero. |
| IntText.NatToStringValue | src/resp/types.rs:162 | The digits written for `n` have the value `n`. |
| IntText.ParseUsize | src/resp/types.rs:144 | A parsed usize is at most 2^64-1. |
| IntText.ParseUsizeNatToString | src/resp/types.rs:144 | `parse::<usize>` reads back the decimal text of any usize. |
| IntText.ParseI64 | src/command/lrange.rs:48 | A success needs non-empty text ending in a digit, and a negative value needs a leading `-`. The empty text, `+` and `-` are refused. |
| IntText.ParseI64IntToString | src/command/lrange.rs:48 | `parse::<i64>` reads back the decimal text of any i64, including the most negative one. |
| RespTypes.BulkStrings | src/command/lrange.rs:104-109 | Texts wrapped as bulk strings keep their number and order. |
| RespTypes.BulkStringsConcat | src/command/lpush.rs:79-87 | Wrapping joined texts gives the joined wrappings. |
| RespTypes.FindCrlf | src/resp/types.rs:128-132 | The scan stops at the first CR LF pair at or after its index, or finds none. |
| RespTypes.ReadTillCrlf | src/resp/types.rs:127-135 | None exactly when the buffer has no CR LF pair. Otherwise it gives the bytes before the first pair, with count `length + 2`. |
| RespTypes.ParseUsizeFromBuf | src/resp/types.rs:140-156 | Succeeds exactly on UTF-8 text that `parse::<usize>` accepts. Otherwise it fails with "Invalid UTF-8 string" or "Invalid value for an integer". |
| RespTypes.BulkHeaderOk | src/resp/types.rs:61-69 | A header that parses has a CRLF-ended length line, whose digits give the length and whose end gives the payload start. |
| RespTypes.Parse | src/resp/types.rs:26-38 | An empty buffer gives "Empty buffer". `$` goes to the bulk-string parser, `+` to the simple-string parser, and any other first byte gives "Invalid RESP data type". |
| RespTypes.ParseBulkString | src/resp/types.rs:59-89 | A success is a bulk string whose count runs at most 2 bytes past the buffer, because the trailer is not checked. The lemmas below give the full contract. |
| RespTypes.ParseBulkStringOk | src/resp/types.rs:59-89 | On success: exactly the declared number of bytes after the length line, UTF-8 decoded. The count is `1 + line + length + 2` whether or not the CRLF is there. |
| RespTypes.ParseBulkStringRejects | src/resp/types.rs:62-78 | With no CRLF after `$`, or a length running past the buffer, the result is InvalidBulkString, never "need more data". |
| RespTypes.BulkEndWrapsAsWritten | src/resp/types.rs:73-81 | As written, a header whose start plus length passes 2^64-1 wraps to an end below the start but within the buffer. The length check passes and the slice panics. The model gives the length error instead. |
| RespTypes.MaxLengthHeader | src/resp/types.rs:61-69 | `$18446744073709551615\r\n` followed by one byte is a header with the largest usize length, in a buffer of usize length. |
| RespTypes.BulkStringTrailerUnchecked | src/resp/types.rs:84 | `$1\r\nab` parses as "a" with a count of 7, past the end of the 6-byte buffer. |
| RespTypes.ParseBulkStringAfterHeader | src/resp/types.rs:73-88 | Once the header is read and the payload fits, the only failure is ill-formed UTF-8, and the count is the payload end plus 2. |
| RespTypes.ParseSimpleString | src/resp/types.rs:105-123 | A success is a simple string whose count lies between 3 and the buffer length. Every failure is InvalidSimpleString. |
| RespTypes.ParseSimpleStringOk | src/resp/types.rs:105-123 | On success: the text before the first CRLF, with count `bytes + 3`, and no CRLF inside the text. |
| RespTypes.ParseSimpleStringFails | src/resp/types.rs:105-123 | Fails exactly when there is no CRLF or the text is not UTF-8. A missing CRLF gives "Invalid value for simple string". |
| RespTypes.ReadTillCrlfExtend | src/resp/types.rs:127-135 | Once a CRLF is buffered, more bytes do not change the line read. |
| RespTypes.ParseLengthLine | src/resp/frame.rs:73 | The length line of an array or bulk string is None exactly while it is incomplete. Otherwise it gives the parsed number and the line's length. |
| RespTypes.ParseArrayLen | src/resp/frame.rs:73 | A first byte other than `*` gives "Invalid RESP array: expected '*'". A complete header starts with `*` and is more than 3 bytes long, within the buffer. |
| RespTypes.ParseBulkStringLen | src/resp/frame.rs:96 | A first byte other than `$` gives "Invalid RESP bulk string: expected '$'". A complete header starts with `$` and is more than 3 bytes long, within the buffer. |
| RespTypes.NewBulkString | src/resp/frame.rs:121 | It is `parse_bulk_string`: a success is a bulk string whose count runs at most 2 bytes past the buffer. |
| RespTypes.ParseLengthLineExtend | src/resp/frame.rs:73 | A complete or already-wrong length line reads the same whatever follows it. |
| RespTypes.ParseBulkStringExtend | src/resp/types.rs:59-89 | A bulk string whose payload is buffered parses the same whatever follows it. |
| RespTypes.ParseBulkStringCount | src/resp/frame.rs:115-129 | When the decoder's length check passes, `new_bulk_string` consumes exactly `line + length + 2` bytes and can fail only on UTF-8. |
| RespTypes.ToBytes | src/resp/types.rs:158-167 | Every serialised value starts with its type byte (`+`, `$` or `-`) and ends with CRLF. The bulk-string length counts UTF-8 bytes (see Findings). The round trips below pair it with `parse`. |
| RespTypes.ToBytesAsWritten | src/resp/types.rs:158-167 | The code as written: simple strings and errors come out as in `ToBytes`. A bulk string still starts with `$` and ends with CRLF, but its length counts characters. |
| RespTypes.ParseBulkStringOf | src/resp/types.rs:59-89 | A serialised bulk string, followed by anything, parses back to itself with its own length. |
| RespTypes.ParseToBytesBulkString | src/resp/types.rs:26-38 | `parse(to_bytes(BulkString(t)))` gives `t` and the whole length back, for every text when the length counts bytes. |
| RespTypes.ParseToBytesSimpleString | src/resp/types.rs:105-123 | The same round trip for simple strings without a CR. |
| RespTypes.ParseToBytesSimpleError | src/resp/types.rs:30-37 | A serialised error is refused by `parse`, which has no `-` case. |
| RespTypes.ToBytesAsWrittenAscii | src/resp/types.rs:158-167 | For ASCII text the code as written and the byte-counting serialiser agree. |
| RespTypes.ToBytesAsWrittenBreaksRoundTrip | src/resp/types.rs:162 | As written, "é" is serialised with length 1 and does not parse back. |
| RespFrame.FrameError.ToString | src/resp/frame.rs:235-239 | A frame error displays as the parse error it wraps. |
| RespFrame.BytesMut.Advance | src/resp/frame.rs:90 | Drops exactly `cnt` bytes from the front. |
| RespFrame.BytesMut.PutSlice | src/resp/frame.rs:167 | Appends at the end and keeps what was there. |
| RespFrame.CommandBuilder.constructor | src/resp/frame.rs:183-189 | No parts, none parsed, the announced count kept. |
| RespFrame.CommandBuilder.AddPart | src/resp/frame.rs:196-199 | Appends the part at the end and adds one to the parsed count. This keeps `partsParsed == |parts|`. |
| RespFrame.CommandBuilder.AllPartsReceived | src/resp/frame.rs:207-209 | True exactly when as many parts are held as were announced. |
| RespFrame.CommandBuilder.Build | src/resp/frame.rs:216-218 | The parts, unchanged and in arrival order. |
| RespFrame.RespCommandFrame.constructor | src/resp/frame.rs:41-43 | Starts with no builder. |
| RespFrame.RespCommandFrame.Decode | src/resp/frame.rs:66-147 | Returns what `DecodeSpec` gives for the old state and buffer, and leaves the state and the buffer that `DecodeSpec` gives. |
| RespFrame.RespCommandFrame.Encode | src/resp/frame.rs:166-170 | Appends the bytes of `ToBytes(item)` to `dst`, keeps what was there, and succeeds. `ToBytes` is the byte-counting serialiser, which differs from the code as written only on non-ASCII bulk strings. |
| RespFrame.DecodeParts | src/resp/frame.rs:94-146 | The loop of `decode` with a builder never grows the buffer. The builder is dropped exactly when a command is returned. |
| RespFrame.DecodeSpec | src/resp/frame.rs:66-147 | `decode` never grows the buffer, and returning a command drops the builder. |
| RespFrame.DecodeArrayHeaderError | src/resp/frame.rs:72-84 | Without a builder, a buffer not starting with `*` gives InvalidData wrapping "Invalid RESP array: expected '*'". No builder is created and nothing is consumed. |
| RespFrame.DecodePartsStep | src/resp/frame.rs:115-143 | A fully buffered bulk string is appended. The command then completes or decoding goes on after it. |
| RespFrame.DecodePartsConsumes | src/resp/frame.rs:94-146 | What is left in the buffer is always a suffix of what was there: only a prefix is consumed. |
| RespFrame.DecodePartsParts | src/resp/frame.rs:132-143 | A command comes back only with exactly the announced number of parts, and the builder is dropped. Otherwise the builder stays with its count and parts. |
| RespFrame.DecodeHeaderIncomplete | src/resp/frame.rs:72-77 | Without a builder, an incomplete array header gives `Ok(None)` and changes neither the state nor the buffer. |
| RespFrame.DecodePartsStops | src/resp/frame.rs:94-128 | When no complete bulk string can be read, decoding returns an error or `Ok(None)`, keeps the builder and consumes nothing. |
| RespFrame.DecodePartsIncomplete | src/resp/frame.rs:96-118 | A bulk string not fully buffered gives `Ok(None)`, stops before it and keeps the parts gathered. |
| RespFrame.DecodeNeedWrapsAsWritten | src/resp/frame.rs:115-121 | As written, the needed size for the largest declared length wraps to the header length plus one, so a buffer one byte past the header passes the test at line 116. The model waits for more data instead. |
| RespFrame.DecodePartsError | src/resp/frame.rs:101-106 | A length-line failure becomes InvalidData wrapping the parse error, consuming nothing past it. |
| RespFrame.ZeroPartsNeverComplete | src/resp/frame.rs:132-143 | A builder announced with zero parts never completes. |
| RespFrame.EmptyArrayNeverCompletes | src/resp/frame.rs:72-91 | `*0\r\n` followed by anything never yields a command. |
| RespFrame.DecodedCommandNonEmpty | src/resp/frame.rs:132-143 | A command that `decode` returns is never empty. |
| RespFrame.DecodePartsExtend | src/resp/frame.rs:94-146 | Decoding `a + b` equals decoding `a` and then, if more data was needed, resuming on what was left plus `b`. |
| RespFrame.DecodeSpecExtend | src/resp/frame.rs:66-147 | The same resumption property for `decode` from any state, with or without a builder. |
| RespFrame.DecodeCommandBytes | src/resp/frame.rs:66-147 | A whole command, followed by anything, decodes in one call from a fresh decoder to its bulk strings in order, consuming exactly its bytes. |
| RespFrame.DecodeInTwoReads | src/resp/frame.rs:66-147 | A command split across two reads at any point where the first needs more data is returned whole by the second, and the buffer ends empty. |
| Storage.DBError.ToString | src/storage/mod.rs:14-23 | WrongType displays the fixed WRONGTYPE text. Other displays its message. |
| Db.Lookup | src/storage/db.rs:74-87 | Absent key gives `Ok(None)`. A string gives `Ok(Some(s))`. Any other kind gives WrongType. |
| Db.DB.constructor | src/storage/db.rs:57-61 | An empty key space. |
| Db.DB.Get | src/storage/db.rs:74-87 | Answers `Lookup` and changes nothing. |
| Db.DB.Set | src/storage/db.rs:101-123 | A key holding another kind gives WrongType and no change. Otherwise it stores the new entry at `k` and leaves every other key as it was. |
| Db.LookupAfterStore | src/storage/db.rs:120-122 | After storing a string, a lookup of its key returns it. |
| Db.LookupOtherKey | src/storage/db.rs:120 | Storing at one key does not change the lookup of any other key. |
| CommandErrors.CommandError.ToString | src/command/mod.rs:148-156 | "Invalid command format", "Unknown command: " followed by the name as sent, or the carried message. |
| PingCommand.WithArgs | src/command/ping.rs:24-35 | No arguments is a plain PING. A first bulk string becomes the message and the rest are ignored. Anything else is "Invalid message". |
| PingCommand.Apply | src/command/ping.rs:44-50 | PONG as a simple string exactly when there is no message. Otherwise the message as a bulk string. |
| PingCommand.WithArgsWords | src/command/ping.rs:24-35 | Parsing the arguments sent for a PING gives it back. |
| PingCommand.EchoesMessage | src/command/ping.rs:24-50 | PING with a message answers exactly that message. |
| GetCommand.WithArgs | src/command/get.rs:29-48 | No arguments is the arity error. A non-bulk key is the key error. Otherwise the key is the first argument and the rest are ignored. |
| GetCommand.Apply | src/command/get.rs:61-69 | The stored string as a bulk string, the null bulk string for a missing key, or the WRONGTYPE error. The store is only read. |
| GetCommand.WithArgsWords | src/command/get.rs:29-48 | Parsing the arguments sent for a GET gives it back. |
| SetCommand.WithArgs | src/command/set.rs:33-66 | The arity error below two arguments, then the key error, then the value error. Otherwise key and value are the first two arguments and the rest are ignored. |
| SetCommand.Apply | src/command/set.rs:82-87 | OK and the value stored, after which GET of the key gives it. On a key holding another kind, the WRONGTYPE error and no change. |
| SetCommand.WithArgsWords | src/command/set.rs:33-66 | Parsing the arguments sent for a SET gives it back. |
| PushCommand.Texts | src/command/lpush.rs:44-54 | The texts of bulk-string arguments, same number and order, wrapping back to the arguments. |
| PushCommand.ParseArgs | src/command/lpush.rs:25-60 | Succeeds exactly with at least two arguments, all bulk strings. The key is the first and the values are the rest in order, so there is at least one value. |
| PushCommand.ParseArgsErrors | src/command/lpush.rs:26-53 | The arity error, then the key error, then the value error for any non-bulk value. |
| PushCommand.WithArgs | src/command/rpush.rs:25-60 | The loop that collects the values returns `ParseArgs`. |
| PushCommand.BuildCommand | src/command/lpush.rs:78-90 | The array of the name, the key and the values, all as bulk strings, in order. |
| PushCommand.ParseBuiltCommand | src/command/rpush.rs:78-90 | `with_args` on the tail of `build_command`'s array gives the same command back. |
| PushCommand.BuildParsedCommand | src/command/lpush.rs:25-90 | `build_command` of a parsed command is the name followed by the same arguments. |
| PushCommand.AsI64 | src/command/lpush.rs:73 | `len as i64`: unchanged up to i64::MAX, and wrapped by 2^64 above it. |
| PushCommand.Apply | src/command/rpush.rs:71-76 | The new length as an integer, or the store's error as a simple error. |
| LRangeCommand.WithArgs | src/command/lrange.rs:26-91 | The arity error below three arguments, then the key, start and end checks with their own messages. Otherwise the parsed i64 indices, with the rest ignored. |
| LRangeCommand.WithArgsWords | src/command/lrange.rs:26-91 | Parsing the arguments sent for an LRANGE gives it back, indices included. |
| LRangeCommand.Apply | src/command/lrange.rs:102-114 | The elements as bulk strings, same length and order, or the store's error as a simple error. |
| Commands.ToLower | src/command/mod.rs:56 | The result has the same length and no upper-case ASCII letter. Each upper-case letter becomes its lower-case form (code + 32), and every other character is kept. |
| Commands.ToLowerEqualIff | src/command/mod.rs:56 | Two names lower to the same text exactly when they have the same length and agree at each position up to ASCII case. |
| Commands.FromRespCommandFrame | src/command/mod.rs:49-102 | A non-bulk first element gives InvalidFormat. An unknown name gives UnknownCommand with the name as sent. A success has the variant named by the lowered name. |
| Commands.Dispatch | src/command/mod.rs:56-98 | A name that lowers to none of the six commands gives UnknownCommand with the name as sent. A success is the command the lowered name selects. |
| Commands.DispatchDelegates | src/command/mod.rs:56-92 | For each known name the outcome is that command's `with_args` on the rest, its error unchanged. |
| Commands.DispatchIgnoresCase | src/command/mod.rs:56 | Spellings of a name that differ only in case dispatch the same. |
| Commands.FromFrameOfWords | src/command/mod.rs:49-102 | The frame a client sends for any well-formed command is parsed back into it. |
| Commands.CommandFromBytes | src/command/mod.rs:49-102 | A command's bytes decode to its frame, leaving the rest, and the frame parses to the command. |
| Commands.Execute | src/command/mod.rs:111-125 | Each command's `apply`. PING, GET and LRANGE leave the store unchanged. SET and the pushes change it as their `apply` says. |
| Commands.SetThenGet | src/command/set.rs:82-87 | SET then GET of a key answers OK and the value, or WRONGTYPE twice when the key holds a list. |

## Left out

- Networking, the async server loop, the connection handler and the CLI (`src/server.rs`, `src/handler.rs`, `src/main.rs`, `cli/src/main.rs`) are I/O and concurrency.
- The `Storage` wrapper, `Arc` sharing and the `RwLock`. The store is single-threaded here, so the lock-poisoning `DBError::Other` branches of `get` and `set` cannot occur.
- `DB::lpush`, `DB::rpush`, `DB::lrange` and `Value::List` are called but not defined in the repository. `Value` has a `List` variant here so that the WRONGTYPE branch of `set` can be reached. The three list operations are function parameters of `Commands.Execute` (the `ListStore` datatype), and the commands' `apply` are modelled as functions of their outcome.
- Db.Lookup: `get` on a key holding a list is modelled as WrongType. The code destructures the only variant it defines, so its behaviour on a list is not written anywhere.
- `parse_array_len`, `parse_bulk_string_len` and `new_bulk_string` are called by the frame decoder but not defined. They are reconstructed from `read_till_crlf` and `parse_usize_from_buf`:
  - the type byte is checked first;
  - an incomplete line means more data is needed;
  - `new_bulk_string` is `parse_bulk_string`;
  - a count that does not parse passes on the error of `parse_usize_from_buf` unchanged, as `parse_bulk_string` does at src/resp/types.rs:63. So `*abc\r\n` gives "Invalid value for an integer", not an InvalidArray error.
- `RespType` here also has `Array`, `Integer` and `NullBulkString`, which the commands build. The repository declares only three variants, and defines serialisation for those three only, so `to_bytes` is given for those three.
- Commands.ToLower: Unicode `to_lowercase` is replaced by ASCII lower-casing. The names matched are ASCII. The only non-ASCII character that lowers to an ASCII letter is U+212A KELVIN SIGN, which lowers to 'k', and no command name has a 'k'. So every name is dispatched the same way.
- Commands.FromRespCommandFrame requires a non-empty frame, because `split_at(1)` panics on an empty one. `RespFrame.DecodedCommandNonEmpty` shows the decoder never returns an empty frame.
- Commands.FromFrameOfWords: for LPUSH and RPUSH, no further arguments may follow the values, since `with_args` would take them as values too.
- RespTypes.ToBytes: the bulk-string length is the number of UTF-8 bytes, not `chars().count()` as at src/resp/types.rs:162 (see Findings). RespTypes.ToBytesAsWritten is the code as written, and RespTypes.ToBytesAsWrittenAscii shows the two agree on ASCII text.
- RespFrame.RespCommandFrame.Encode: appends `ToBytes`, the byte-counting serialiser, so for a non-ASCII bulk string it writes the corrected length rather than the character count the code writes.
- RespTypes.ParseBulkString, RespTypes.ParseBulkStringRejects, RespFrame.DecodePartsIncomplete, RespFrame.RespCommandFrame.Decode: lengths and sums are unbounded integers. The `usize` overflow of a declared length near 2^64 (a panic in a debug build, a wrapped sum in a release build) is therefore not modelled. The model gives the length error, or waits for more data, where the code panics (see Findings).
- The `std::error::Error` impls, the `Decoder`/`Encoder` trait plumbing and the `Bytes` type are left out. Buffers are sequences of byte values.

## Findings

| source | as written | input that shows it | evidently intended | confidence | as-written member | corrected member |
|---|---|---|---|---|---|---|
| src/resp/types.rs:162 | the bulk-string length is written as `chars().count()`, but `parse_bulk_string` reads it as a byte count | `BulkString("é")` is written as `$1\r\n` followed by bytes C3 A9 and CRLF; parsing reads the single byte C3 and fails as not UTF-8 | the length written is the number of UTF-8 bytes, `bs.len()` | not executed | RespTypes.ToBytesAsWrittenBreaksRoundTrip | RespTypes.ParseToBytesBulkString |
| src/resp/types.rs:73 | the payload end is the `usize` sum of the bytes consumed and the declared length | `$18446744073709551615\r\nX`: 23 bytes are consumed, so the sum overflows. A debug build panics at line 73. A release build wraps to 22, passes the check at line 74, and panics slicing bytes 23 to 22 at line 81 | a declared length that runs past the buffer is refused with "Invalid value for bulk string length" | not executed | RespTypes.BulkEndWrapsAsWritten | RespTypes.ParseBulkStringRejects |
| src/resp/frame.rs:115 | the size needed for a bulk string is the `usize` sum of the declared length, the header length and 2 | `*1\r\n$18446744073709551615\r\nX`: after the array header, the sum overflows. A debug build panics at line 115. A release build wraps to 24, passes the test at line 116, and reaches `new_bulk_string` on a 24-byte buffer, which overflows as in the row above | a buffer shorter than the declared bulk string gives `Ok(None)` and waits for more data | not executed | RespFrame.DecodeNeedWrapsAsWritten | RespFrame.DecodePartsIncomplete |
