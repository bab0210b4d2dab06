/** The parse errors of the RESP codec (src/resp/mod.rs). */
module Resp {

  datatype RespError =
    | InvalidBulkString(msg: string)
    | InvalidSimpleString(msg: string)
    | InvalidArray(msg: string)
    | Other(msg: string)
  {
    /** `Display`: every variant prints its message and nothing else. */
    function ToString(): (text: string)
      ensures text == msg
    {
      match this
      case InvalidBulkString(m) => m
      case InvalidSimpleString(m) => m
      case InvalidArray(m) => m
      case Other(m) => m
    }
  }
}

/**
  * The RESP (Redis serialization protocol, version 2) value type and its
  * single-value parser and serialiser (src/resp/types.rs).
  */
module RespTypes {
  import opened Wrappers
  import opened Utf8
  import opened IntText
  import opened Resp

  const CR: Byte := 13
  const LF: Byte := 10
  const CRLF: seq<Byte> := [CR, LF]
  const DOLLAR: Byte := 36  // '$'
  const PLUS: Byte := 43    // '+'
  const MINUS: Byte := 45   // '-'
  const STAR: Byte := 42    // '*'

  /**
    * A RESP value. The first three variants are the ones the parser and the
    * serialiser handle; the last three are built by the command layer.
    */
  datatype RespType =
    | SimpleString(s: string)
    | BulkString(s: string)
    | SimpleError(s: string)
    | NullBulkString
    | Integer(n: I64)
    | Array(elems: seq<RespType>)

  /** Texts as bulk strings, in order. */
  function BulkStrings(strs: seq<string>): (vs: seq<RespType>)
    ensures |vs| == |strs|
    ensures forall i | 0 <= i < |strs| :: vs[i] == BulkString(strs[i])
  {
    if strs == [] then [] else [BulkString(strs[0])] + BulkStrings(strs[1..])
  }

  /** Bulk strings of joined texts are the joined bulk strings. */
  lemma BulkStringsConcat(ts: seq<string>, us: seq<string>)
    ensures BulkStrings(ts + us) == BulkStrings(ts) + BulkStrings(us)
  {
    var vs := BulkStrings(ts + us);
    assert |vs| == |BulkStrings(ts) + BulkStrings(us)|;
    forall i | 0 <= i < |vs| ensures vs[i] == (BulkStrings(ts) + BulkStrings(us))[i] {
      if i < |ts| { assert (ts + us)[i] == ts[i]; } else { assert (ts + us)[i] == us[i - |ts|]; }
    }
  }

  // -----------------------------------------------------------------------
  // Scanning for CRLF

  /** A CR LF pair starts at index `j` of `buf`. */
  predicate CrlfAt(buf: seq<Byte>, j: int)
  {
    0 <= j && j + 1 < |buf| && buf[j] == CR && buf[j + 1] == LF
  }

  /** The scan of `read_till_crlf` from loop index `i` on: the index of the LF of the first pair. */
  function FindCrlf(buf: seq<Byte>, i: nat): (r: Option<nat>)
    requires 1 <= i
    decreases |buf| - i
    ensures r.Some? ==> i <= r.value < |buf| && CrlfAt(buf, r.value - 1)
    ensures r.Some? ==> forall j | i - 1 <= j < r.value - 1 :: !CrlfAt(buf, j)
    ensures r.None? ==> forall j | i - 1 <= j :: !CrlfAt(buf, j)
  {
    if i >= |buf| then None
    else if buf[i - 1] == CR && buf[i] == LF then Some(i)
    else FindCrlf(buf, i + 1)
  }

  /**
    * `read_till_crlf`: None exactly when `buf` holds no CR LF pair;
    * otherwise the bytes before the first pair, and their count plus 2.
    */
  function ReadTillCrlf(buf: seq<Byte>): (r: Option<(seq<Byte>, nat)>)
    ensures r.None? <==> forall j :: !CrlfAt(buf, j)
    ensures r.Some? ==>
      && r.value.1 == |r.value.0| + 2 <= |buf|
      && r.value.0 == buf[..|r.value.0|]
      && CrlfAt(buf, |r.value.0|)
      && forall j | 0 <= j < |r.value.0| :: !CrlfAt(buf, j)
  {
    match FindCrlf(buf, 1)
    case None => None
    case Some(i) => Some((buf[..i - 1], i + 1))
  }

  /**
    * `parse_usize_from_buf`: the bytes must be UTF-8 text that
    * `str::parse::<usize>` accepts.
    */
  function ParseUsizeFromBuf(buf: seq<Byte>): (r: Result<nat, RespError>)
    ensures r.Ok? <==> Decode(buf).Some? && ParseUsize(Decode(buf).value).Some?
    ensures r.Ok? ==> r.value == ParseUsize(Decode(buf).value).value
    ensures Decode(buf).None? ==> r == Err(Other("Invalid UTF-8 string"))
    ensures Decode(buf).Some? && r.Err? ==> r == Err(Other("Invalid value for an integer"))
  {
    match Decode(buf)
    case None => Err(Other("Invalid UTF-8 string"))
    case Some(text) =>
      match ParseUsize(text)
      case None => Err(Other("Invalid value for an integer"))
      case Some(n) => Ok(n)
  }

  // -----------------------------------------------------------------------
  // Parsing one value

  /** `String::from_utf8` applied to the bytes `buf[start..end]`. */
  function DecodeSlice(buf: seq<Byte>, start: nat, end: nat): Option<string>
    requires start <= end <= |buf|
  {
    Decode(buf[start..end])
  }

  /**
    * The length line of `parse_bulk_string`, after the unchecked first
    * byte: the declared length and the index where the payload starts.
    */
  function BulkHeader(buf: seq<Byte>): Result<(nat, nat), RespError>
    requires |buf| > 0
  {
    HeaderOfLine(ReadTillCrlf(buf[1..]))
  }

  /** The bulk-string header from what the CRLF scan after the type byte found. */
  function HeaderOfLine(line: Option<(seq<Byte>, nat)>): Result<(nat, nat), RespError>
  {
    match line
    case None => Err(InvalidBulkString("Invalid value for bulk string"))
    case Some((digits, len)) =>
      match ParseUsizeFromBuf(digits)
      case Err(e) => Err(e)
      case Ok(n) => Ok((n, len + 1))
  }

  /**
    * `parse_bulk_string`. The first byte is skipped unchecked. The length
    * line is parsed first, then the payload is cut and checked for UTF-8.
    * The trailing CRLF is never looked at: the reported count is always the
    * payload end plus 2.
    */
  function ParseBulkString(buf: seq<Byte>): (r: Result<(RespType, nat), RespError>)
    requires |buf| > 0
    ensures r.Ok? ==> r.value.0.BulkString? && r.value.1 <= |buf| + 2
  {
    BulkAfterHeader(BulkHeader(buf), buf)
  }

  /** The rest of `parse_bulk_string` once the header `h` is read: the payload must fit in `buf`. */
  function BulkAfterHeader(h: Result<(nat, nat), RespError>, buf: seq<Byte>): (r: Result<(RespType, nat), RespError>)
    ensures r.Ok? ==> h.Ok? && r.value.0.BulkString? && r.value.1 == h.value.0 + h.value.1 + 2 <= |buf| + 2
  {
    match h
    case Err(e) => Err(e)
    case Ok((n, start)) =>
      if start + n > |buf| then Err(InvalidBulkString("Invalid value for bulk string length"))
      else PayloadResult(DecodeSlice(buf, start, start + n), start + n + 2)
  }

  /** The outcome of `parse_bulk_string` once the payload has been cut and decoded. */
  function PayloadResult(text: Option<string>, count: nat): Result<(RespType, nat), RespError>
  {
    match text
    case None => Err(InvalidBulkString("Bulk string value is not a valid UTF-8 string"))
    case Some(t) => Ok((BulkString(t), count))
  }

  /** `parse_simple_string`: the text before the first CRLF after the first byte. */
  function ParseSimpleString(buf: seq<Byte>): (r: Result<(RespType, nat), RespError>)
    requires |buf| > 0
    ensures r.Ok? ==> r.value.0.SimpleString? && 3 <= r.value.1 <= |buf|
    ensures r.Err? ==> r.error.InvalidSimpleString?
  {
    SimpleOfLine(ReadTillCrlf(buf[1..]))
  }

  /** The simple string from what the CRLF scan after the type byte found. */
  function SimpleOfLine(line: Option<(seq<Byte>, nat)>): Result<(RespType, nat), RespError>
  {
    if line.None? then Err(InvalidSimpleString("Invalid value for simple string"))
    else
      var text := Decode(line.value.0);
      var count: nat := line.value.1 + 1;
      if text.None? then Err(InvalidSimpleString("Simple string value is not a valid UTF-8 string"))
      else Ok((SimpleString(text.value), count))
  }

  /** `parse`: dispatch on the type byte. */
  function Parse(buf: seq<Byte>): (r: Result<(RespType, nat), RespError>)
    ensures |buf| == 0 ==> r == Err(Other("Empty buffer"))
    ensures |buf| > 0 && buf[0] == DOLLAR ==> r == ParseBulkString(buf)
    ensures |buf| > 0 && buf[0] == PLUS ==> r == ParseSimpleString(buf)
    ensures |buf| > 0 && buf[0] != DOLLAR && buf[0] != PLUS ==> r == Err(Other("Invalid RESP data type"))
  {
    if |buf| == 0 then Err(Other("Empty buffer"))
    else if buf[0] == DOLLAR then ParseBulkString(buf)
    else if buf[0] == PLUS then ParseSimpleString(buf)
    else Err(Other("Invalid RESP data type"))
  }

  // -----------------------------------------------------------------------
  // Serialising one value

  /** The variants whose encoding the serialiser defines. */
  predicate Encodable(v: RespType)
  {
    v.SimpleString? || v.BulkString? || v.SimpleError?
  }

  /** A length line: the type byte, the decimal number, CRLF. */
  function HeaderBytes(tag: Byte, n: nat): seq<Byte>
  {
    [tag] + Encode(NatToString(n)) + CRLF
  }

  /**
    * `to_bytes`, with the bulk-string length written as the number of
    * payload BYTES. This is the serialiser the rest of the model uses; the
    * code as written counts characters instead (see ToBytesAsWritten).
    */
  function ToBytes(v: RespType): (bs: seq<Byte>)
    requires Encodable(v)
    ensures |bs| >= 3 && bs[|bs| - 2..] == CRLF
    ensures bs[0] == (match v
      case SimpleString(_) => PLUS
      case BulkString(_) => DOLLAR
      case SimpleError(_) => MINUS)
  {
    match v
    case SimpleString(t) => [PLUS] + Encode(t) + CRLF
    case BulkString(t) => HeaderBytes(DOLLAR, |Encode(t)|) + Encode(t) + CRLF
    case SimpleError(t) => [MINUS] + Encode(t) + CRLF
  }

  /** `to_bytes` exactly as written: the bulk-string length is `chars().count()`. */
  function ToBytesAsWritten(v: RespType): (bs: seq<Byte>)
    requires Encodable(v)
    ensures !v.BulkString? ==> bs == ToBytes(v)
    ensures v.BulkString? ==> |bs| >= 3 && bs[0] == DOLLAR && bs[|bs| - 2..] == CRLF
  {
    match v
    case SimpleString(t) => [PLUS] + Encode(t) + CRLF
    case BulkString(t) => HeaderBytes(DOLLAR, |t|) + Encode(t) + CRLF
    case SimpleError(t) => [MINUS] + Encode(t) + CRLF
  }

  // -----------------------------------------------------------------------
  // Length-line parsers called by the frame decoder. Their definitions are
  // not part of the source; they are reconstructed from `read_till_crlf`
  // and `parse_usize_from_buf`: the type byte is checked first, an
  // incomplete line means "need more data", a count that does not parse
  // passes on the error of `parse_usize_from_buf` unchanged, and
  // `new_bulk_string` is `parse_bulk_string`.

  function ParseLengthLine(buf: seq<Byte>, tag: Byte, wrongTag: RespError): (r: Result<Option<(nat, nat)>, RespError>)
    ensures r == Ok(None) <==> |buf| == 0 || (buf[0] == tag && ReadTillCrlf(buf[1..]).None?)
    ensures r.Ok? && r.value.Some? ==> 0 < r.value.value.1 <= |buf|
    ensures r.Ok? && r.value.Some? ==>
      && buf[0] == tag
      && ReadTillCrlf(buf[1..]).Some?
      && r.value.value.1 == ReadTillCrlf(buf[1..]).value.1 + 1
      && ParseUsizeFromBuf(ReadTillCrlf(buf[1..]).value.0) == Ok(r.value.value.0)
  {
    if |buf| == 0 then Ok(None) else LengthLineOf(buf[0], ReadTillCrlf(buf[1..]), tag, wrongTag)
  }

  /** A length line from its type byte and what the CRLF scan after it found. */
  function LengthLineOf(first: Byte, line: Option<(seq<Byte>, nat)>, tag: Byte, wrongTag: RespError)
    : Result<Option<(nat, nat)>, RespError>
  {
    if first != tag then Err(wrongTag)
    else
      match line
      case None => Ok(None)
      case Some((digits, len)) =>
        match ParseUsizeFromBuf(digits)
        case Err(e) => Err(e)
        case Ok(n) => Ok(Some((n, len + 1)))
  }

  /** `parse_array_len`: `*<count>\r\n`; None while the line is incomplete. */
  function ParseArrayLen(buf: seq<Byte>): (r: Result<Option<(nat, nat)>, RespError>)
    ensures |buf| > 0 && buf[0] != STAR ==> r == Err(InvalidArray("Invalid RESP array: expected '*'"))
    ensures r.Ok? && r.value.Some? ==> |buf| > 0 && buf[0] == STAR && 3 < r.value.value.1 <= |buf|
  {
    ParseLengthLine(buf, STAR, InvalidArray("Invalid RESP array: expected '*'"))
  }

  /** `parse_bulk_string_len`: `$<length>\r\n`; None while the line is incomplete. */
  function ParseBulkStringLen(buf: seq<Byte>): (r: Result<Option<(nat, nat)>, RespError>)
    ensures |buf| > 0 && buf[0] != DOLLAR ==> r == Err(InvalidBulkString("Invalid RESP bulk string: expected '$'"))
    ensures r.Ok? && r.value.Some? ==> |buf| > 0 && buf[0] == DOLLAR && 3 < r.value.value.1 <= |buf|
  {
    ParseLengthLine(buf, DOLLAR, InvalidBulkString("Invalid RESP bulk string: expected '$'"))
  }

  /** `new_bulk_string`: the same as `parse_bulk_string`. */
  function NewBulkString(buf: seq<Byte>): (r: Result<(RespType, nat), RespError>)
    requires |buf| > 0
    ensures r.Ok? ==> r.value.0.BulkString? && r.value.1 <= |buf| + 2
  {
    ParseBulkString(buf)
  }

  // =======================================================================
  // Properties of the parser

  /**
    * What a successful bulk-string parse returns: the payload is exactly the
    * `n` bytes after the length line, where `n` is the declared length, and
    * the count is 1 + the length line + n + 2 whether or not a CRLF follows.
    */
  lemma ParseBulkStringOk(buf: seq<Byte>)
    requires |buf| > 0 && ParseBulkString(buf).Ok?
    ensures var (v, m) := ParseBulkString(buf).value;
      var digits := ReadTillCrlf(buf[1..]).value.0;
      var start := |digits| + 3;
      && v.BulkString?
      && ParseUsizeFromBuf(digits) == Ok(|Encode(v.s)|)
      && start + |Encode(v.s)| <= |buf|
      && buf[start..start + |Encode(v.s)|] == Encode(v.s)
      && m == 1 + (|digits| + 2) + |Encode(v.s)| + 2
  {
    assert BulkHeader(buf).Ok?;
    BulkHeaderOk(buf);
    var (n, start) := BulkHeader(buf).value;
    assert start + n <= |buf|;
    ParseBulkStringAfterHeader(buf, n, start);
    var payload := buf[start..start + n];
    assert DecodeSlice(buf, start, start + n) == Decode(payload);
    EncodeDecode(payload);
  }

  /**
    * A header that parses has a CRLF-ended length line after the type
    * byte, whose digits give the length and whose end gives the payload
    * start.
    */
  lemma BulkHeaderOk(buf: seq<Byte>)
    requires |buf| > 0 && BulkHeader(buf).Ok?
    ensures ReadTillCrlf(buf[1..]).Some?
    ensures ParseUsizeFromBuf(ReadTillCrlf(buf[1..]).value.0) == Ok(BulkHeader(buf).value.0)
    ensures BulkHeader(buf).value.1 == ReadTillCrlf(buf[1..]).value.1 + 1 <= |buf|
  {
  }

  /** One-character ASCII text and its byte. */
  lemma AsciiBytes(t: string)
    requires |t| == 1 && t[0] as int < 0x80
    ensures Encode(t) == [t[0] as int] && Decode([t[0] as int]) == Some(t)
  {
    DecodeEncode(t);
  }

  /** A bulk string without its length line, or whose payload overruns the buffer, is rejected as such. */
  lemma ParseBulkStringRejects(buf: seq<Byte>)
    requires |buf| > 0
    ensures ReadTillCrlf(buf[1..]).None? ==>
      ParseBulkString(buf) == Err(InvalidBulkString("Invalid value for bulk string"))
    ensures ReadTillCrlf(buf[1..]).Some? && ParseUsizeFromBuf(ReadTillCrlf(buf[1..]).value.0).Ok? ==>
      var (digits, len) := ReadTillCrlf(buf[1..]).value;
      (len + 1 + ParseUsizeFromBuf(digits).value > |buf| <==>
       ParseBulkString(buf) == Err(InvalidBulkString("Invalid value for bulk string length")))
  {
  }

  /**
    * As written, the end of the payload at src/resp/types.rs:73 is the
    * `usize` sum of the bytes consumed and the declared length. When that
    * sum passes USIZE_MAX a debug build panics, and a release build wraps
    * to an end below the start: the length check at line 74 passes, and
    * the slice from start to end at line 81 panics. ParseBulkString
    * compares the unbounded sum and reports the length error instead.
    */
  lemma BulkEndWrapsAsWritten(buf: seq<Byte>, n: nat, start: nat)
    requires 0 < |buf| <= USIZE_MAX
    requires BulkHeader(buf) == Ok((n, start)) && start + n > USIZE_MAX
    ensures start <= |buf| && n <= USIZE_MAX
    ensures WrappingAdd(start, n) < start && WrappingAdd(start, n) <= |buf|
    ensures ParseBulkString(buf) == Err(InvalidBulkString("Invalid value for bulk string length"))
  {
    BulkHeaderOk(buf);
  }

  /**
    * The header `$18446744073709551615\r\n` (the largest `usize` length)
    * followed by one byte: a buffer that meets BulkEndWrapsAsWritten.
    */
  lemma MaxLengthHeader(x: Byte)
    ensures var buf := HeaderBytes(DOLLAR, USIZE_MAX) + [x];
      && |buf| <= USIZE_MAX
      && BulkHeader(buf) == Ok((USIZE_MAX, |buf| - 1))
      && ParseBulkStringLen(buf) == Ok(Some((USIZE_MAX, |buf| - 1)))
  {
    BulkHeaderOf(USIZE_MAX, [x]);
    ParseLengthLineOf(DOLLAR, InvalidBulkString("Invalid RESP bulk string: expected '$'"), USIZE_MAX, [x]);
    NatToStringShort(USIZE_MAX);
    NatToStringAscii(USIZE_MAX);
    EncodeAscii(NatToString(USIZE_MAX));
  }

  /**
    * The trailing CRLF of a bulk string is not checked: the six bytes
    * `$1\r\nab` are accepted, with a count of 7 that runs past the buffer.
    */
  lemma BulkStringTrailerUnchecked()
    ensures ParseBulkString([DOLLAR, 49, CR, LF, 97, 98]) == Ok((BulkString("a"), 7))
  {
    AsciiBytes("1");
    assert NatToString(1) == "1";
    assert HeaderBytes(DOLLAR, 1) + [97] + [98] == [DOLLAR, 49, CR, LF, 97, 98];
    ParseBulkStringFramed(1, [97], [98]);
    AsciiBytes("a");
  }

  /** What a successful simple-string parse returns: the text before the first CRLF, and its byte count plus 3. */
  lemma ParseSimpleStringOk(buf: seq<Byte>)
    requires |buf| > 0 && ParseSimpleString(buf).Ok?
    ensures var (v, m) := ParseSimpleString(buf).value;
      && v.SimpleString?
      && m == |Encode(v.s)| + 3 <= |buf|
      && buf[1..m] == Encode(v.s) + CRLF
      && forall j | 0 <= j < |Encode(v.s)| :: !CrlfAt(buf[1..], j)
  {
    var line := buf[1..];
    var (data, len) := ReadTillCrlf(line).value;
    EncodeDecode(data);
    LineWithCrlf(line);
    SliceOfSuffix(buf, 1, len);
  }

  /** The line the CRLF scan found, with its CRLF, is where the scan stopped. */
  lemma LineWithCrlf(line: seq<Byte>)
    requires ReadTillCrlf(line).Some?
    ensures line[..ReadTillCrlf(line).value.1] == ReadTillCrlf(line).value.0 + CRLF
  {
    var (data, len) := ReadTillCrlf(line).value;
    assert line[..|data|] == data && CrlfAt(line, |data|);
  }

  /** A prefix of a suffix is a slice. */
  lemma SliceOfSuffix(buf: seq<Byte>, i: nat, len: nat)
    requires i + len <= |buf|
    ensures buf[i..][..len] == buf[i..i + len]
  {
  }

  /** A simple string fails exactly when no CRLF follows the type byte or the text is not UTF-8. */
  lemma ParseSimpleStringFails(buf: seq<Byte>)
    requires |buf| > 0
    ensures ParseSimpleString(buf).Err? <==>
      ReadTillCrlf(buf[1..]).None? || Decode(ReadTillCrlf(buf[1..]).value.0).None?
    ensures ReadTillCrlf(buf[1..]).None? ==>
      ParseSimpleString(buf) == Err(InvalidSimpleString("Invalid value for simple string"))
  {
  }

  // =======================================================================
  // More bytes do not change a value that is already complete

  /** Once a CRLF has been found, appending bytes does not change the line read. */
  lemma ReadTillCrlfExtend(buf: seq<Byte>, more: seq<Byte>)
    requires ReadTillCrlf(buf).Some?
    ensures ReadTillCrlf(buf + more) == ReadTillCrlf(buf)
  {
    var (data, len) := ReadTillCrlf(buf).value;
    var ext := buf + more;
    assert CrlfAt(ext, |data|);
    var (data', len') := ReadTillCrlf(ext).value;
    forall j | 0 <= j < |data| ensures !CrlfAt(ext, j) {
      assert !CrlfAt(buf, j);
    }
    assert !(|data'| < |data|);
    assert !(|data| < |data'|);
    assert data' == ext[..|data|] == buf[..|data|];
  }

  /** A length line that is complete, or already wrong, is read the same whatever follows it. */
  lemma ParseLengthLineExtend(buf: seq<Byte>, more: seq<Byte>, tag: Byte, wrongTag: RespError)
    requires ParseLengthLine(buf, tag, wrongTag) != Ok(None)
    ensures ParseLengthLine(buf + more, tag, wrongTag) == ParseLengthLine(buf, tag, wrongTag)
  {
    TailExtend(buf, more);
    if buf[0] == tag {
      ReadTillCrlfExtend(buf[1..], more);
    } else {
      assert LengthLineOf(buf[0], ReadTillCrlf(buf[1..]), tag, wrongTag) == Err(wrongTag);
    }
  }

  /** Appending to a non-empty buffer keeps its first byte and appends to the rest. */
  lemma TailExtend(buf: seq<Byte>, more: seq<Byte>)
    requires |buf| > 0
    ensures (buf + more)[0] == buf[0] && (buf + more)[1..] == buf[1..] + more
  {
  }

  /** The header of `parse_bulk_string` is read the same whatever follows a complete line. */
  lemma BulkHeaderExtend(buf: seq<Byte>, more: seq<Byte>)
    requires |buf| > 0 && ReadTillCrlf(buf[1..]).Some?
    ensures BulkHeader(buf + more) == BulkHeader(buf)
  {
    TailExtend(buf, more);
    ReadTillCrlfExtend(buf[1..], more);
  }

  /** A bulk string whose payload is buffered parses the same whatever follows it. */
  lemma ParseBulkStringExtend(buf: seq<Byte>, more: seq<Byte>, n: nat, start: nat)
    requires |buf| > 0 && BulkHeader(buf) == Ok((n, start)) && start + n <= |buf|
    ensures ParseBulkString(buf + more) == ParseBulkString(buf)
  {
    BulkHeaderExtend(buf, more);
    ParseBulkStringByHeader(buf + more, n, start);
    PayloadExtend(buf, more, start, n);
    ParseBulkStringByHeader(buf, n, start);
  }

  /** A payload that is buffered in full gives the same outcome whatever follows it. */
  lemma PayloadExtend(buf: seq<Byte>, more: seq<Byte>, start: nat, n: nat)
    requires start + n <= |buf|
    ensures PayloadResult(DecodeSlice(buf + more, start, start + n), start + n + 2)
         == PayloadResult(DecodeSlice(buf, start, start + n), start + n + 2)
  {
    assert (buf + more)[start..start + n] == buf[start..start + n];
  }

  /** Once the header is read and the payload fits, the parse depends only on the decoded payload. */
  lemma ParseBulkStringByHeader(buf: seq<Byte>, n: nat, start: nat)
    requires |buf| > 0 && BulkHeader(buf) == Ok((n, start)) && start + n <= |buf|
    ensures ParseBulkString(buf) == PayloadResult(DecodeSlice(buf, start, start + n), start + n + 2)
  {
    AfterHeaderFits(n, start, buf);
  }

  /** A header whose payload fits gives the outcome of decoding that payload. */
  lemma AfterHeaderFits(n: nat, start: nat, buf: seq<Byte>)
    requires start + n <= |buf|
    ensures BulkAfterHeader(Ok((n, start)), buf) == PayloadResult(DecodeSlice(buf, start, start + n), start + n + 2)
  {
  }

  // =======================================================================
  // Round trips

  /** The decimal text of a number is parsed back by `parse_usize_from_buf`. */
  lemma ParseUsizeFromBufDigits(n: nat)
    requires n <= USIZE_MAX
    ensures ParseUsizeFromBuf(Encode(NatToString(n))) == Ok(n)
  {
    DecodeEncode(NatToString(n));
    ParseUsizeNatToString(n);
  }

  /** The first CRLF of `x + CRLF + rest` is the one after `x` when `x` holds no CR. */
  lemma ReadTillCrlfAfter(x: seq<Byte>, rest: seq<Byte>)
    requires forall j | 0 <= j < |x| :: x[j] != CR
    ensures ReadTillCrlf(x + CRLF + rest) == Some((x, |x| + 2))
  {
    var buf := x + CRLF + rest;
    assert CrlfAt(buf, |x|);
    forall j | 0 <= j < |x| ensures !CrlfAt(buf, j) {
      assert buf[j] == x[j];
    }
    var r := ReadTillCrlf(buf);
    assert r.Some?;
    assert |r.value.0| == |x|;
    assert buf[..|x|] == x;
  }

  /** Decimal digits never contain a CR byte. */
  lemma DigitsHaveNoCr(n: nat)
    ensures forall j | 0 <= j < |Encode(NatToString(n))| :: Encode(NatToString(n))[j] != CR
  {
    var s := NatToString(n);
    forall i | 0 <= i < |s| ensures s[i] as int != CR { }
    EncodeAvoidsAsciiByte(s, CR);
  }

  /** A length line followed by anything: the scan after the type byte stops at the line's CRLF. */
  lemma ReadHeaderLine(tag: Byte, n: nat, rest: seq<Byte>)
    ensures var digits := Encode(NatToString(n));
      ReadTillCrlf((HeaderBytes(tag, n) + rest)[1..]) == Some((digits, |digits| + 2))
  {
    var digits := Encode(NatToString(n));
    DigitsHaveNoCr(n);
    assert (HeaderBytes(tag, n) + rest)[1..] == digits + CRLF + rest;
    ReadTillCrlfAfter(digits, rest);
  }

  /** A length line followed by anything is read back by the length-line parser. */
  lemma ParseLengthLineOf(tag: Byte, wrongTag: RespError, n: nat, rest: seq<Byte>)
    requires n <= USIZE_MAX
    ensures ParseLengthLine(HeaderBytes(tag, n) + rest, tag, wrongTag)
         == Ok(Some((n, |HeaderBytes(tag, n)|)))
  {
    ReadHeaderLine(tag, n, rest);
    ParseUsizeFromBufDigits(n);
  }

  /** The length line of a serialised bulk string is read back, whatever follows it. */
  lemma ParseBulkStringLenOf(t: string, rest: seq<Byte>)
    requires |Encode(t)| <= USIZE_MAX
    ensures ParseBulkStringLen(ToBytes(BulkString(t)) + rest)
         == Ok(Some((|Encode(t)|, |HeaderBytes(DOLLAR, |Encode(t)|)|)))
  {
    var e := Encode(t);
    ToBytesBulkStringSplit(t, rest);
    AppendAssoc(HeaderBytes(DOLLAR, |e|), e, CRLF + rest);
    ParseLengthLineOf(DOLLAR, InvalidBulkString("Invalid RESP bulk string: expected '$'"), |e|, e + (CRLF + rest));
  }

  lemma AppendAssoc(a: seq<Byte>, b: seq<Byte>, c: seq<Byte>)
    ensures a + b + c == a + (b + c)
  {
  }

  /** The header of `parse_bulk_string` reads a length line back, whatever follows it. */
  lemma BulkHeaderOf(n: nat, rest: seq<Byte>)
    requires n <= USIZE_MAX
    ensures BulkHeader(HeaderBytes(DOLLAR, n) + rest) == Ok((n, |HeaderBytes(DOLLAR, n)|))
  {
    ReadHeaderLine(DOLLAR, n, rest);
    ParseUsizeFromBufDigits(n);
  }

  /** Decoding the middle part of a concatenation decodes that part. */
  lemma DecodeSliceOf(h: seq<Byte>, payload: seq<Byte>, rest: seq<Byte>)
    ensures DecodeSlice(h + payload + rest, |h|, |h| + |payload|) == Decode(payload)
  {
    assert (h + payload + rest)[|h|..|h| + |payload|] == payload;
  }

  /** The header of a length line followed by a payload and anything else. */
  lemma FramedHeader(n: nat, payload: seq<Byte>, rest: seq<Byte>)
    requires n == |payload| <= USIZE_MAX
    ensures BulkHeader(HeaderBytes(DOLLAR, n) + payload + rest) == Ok((n, |HeaderBytes(DOLLAR, n)|))
  {
    var h := HeaderBytes(DOLLAR, n);
    BulkHeaderOf(n, payload + rest);
    assert h + payload + rest == h + (payload + rest);
  }

  /**
    * Once the header has been read, a bulk string whose payload fits in the
    * buffer fails only on ill-formed UTF-8, and its count ends 2 bytes past
    * the payload.
    */
  lemma ParseBulkStringAfterHeader(buf: seq<Byte>, n: nat, start: nat)
    requires |buf| > 0
    requires BulkHeader(buf) == Ok((n, start)) && start + n <= |buf|
    ensures var r := ParseBulkString(buf);
      && (r.Err? <==> DecodeSlice(buf, start, start + n).None?)
      && (r.Err? ==> r.error == InvalidBulkString("Bulk string value is not a valid UTF-8 string"))
      && (r.Ok? ==> r.value.0 == BulkString(DecodeSlice(buf, start, start + n).value))
      && (r.Ok? ==> r.value.1 == start + n + 2)
  {
    ParseBulkStringByHeader(buf, n, start);
  }

  /**
    * A length line declaring `n` followed by `n` payload bytes: the parse
    * result depends only on whether the payload is UTF-8, and the count
    * ends 2 bytes past the payload.
    */
  lemma ParseBulkStringFramed(n: nat, payload: seq<Byte>, rest: seq<Byte>)
    requires n == |payload| <= USIZE_MAX
    ensures var r := ParseBulkString(HeaderBytes(DOLLAR, n) + payload + rest);
      && (r.Err? <==> Decode(payload).None?)
      && (r.Err? ==> r.error == InvalidBulkString("Bulk string value is not a valid UTF-8 string"))
      && (r.Ok? ==> r.value.0 == BulkString(Decode(payload).value))
      && (r.Ok? ==> r.value.1 == |HeaderBytes(DOLLAR, n)| + n + 2)
  {
    var h := HeaderBytes(DOLLAR, n);
    var buf := h + payload + rest;
    FramedHeader(n, payload, rest);
    DecodeSliceOf(h, payload, rest);
    ParseBulkStringAfterHeader(buf, n, |h|);
  }

  /**
    * The length line read by `parse_bulk_string_len` is the one
    * `parse_bulk_string` reads: when the whole string is buffered, the
    * parse consumes exactly the line, the payload and 2 more bytes, and can
    * fail only on ill-formed UTF-8.
    */
  lemma ParseBulkStringCount(buf: seq<Byte>, n: nat, k: nat)
    requires ParseBulkStringLen(buf) == Ok(Some((n, k))) && n + k + 2 <= |buf|
    ensures |buf| > 0 && BulkHeader(buf) == Ok((n, k))
    ensures ParseBulkString(buf).Ok? ==>
      ParseBulkString(buf).value.1 == n + k + 2 && ParseBulkString(buf).value.0.BulkString?
    ensures ParseBulkString(buf).Err? ==>
      ParseBulkString(buf).error == InvalidBulkString("Bulk string value is not a valid UTF-8 string")
  {
    ParseBulkStringAfterHeader(buf, n, k);
  }

  /** A serialised bulk string, followed by anything, parses back to itself and its own length. */
  lemma ParseBulkStringOf(t: string, rest: seq<Byte>)
    requires |Encode(t)| <= USIZE_MAX
    ensures ParseBulkString(ToBytes(BulkString(t)) + rest)
         == Ok((BulkString(t), |ToBytes(BulkString(t))|))
  {
    var bs := ToBytes(BulkString(t));
    ToBytesBulkStringSplit(t, rest);
    DecodeEncode(t);
    ParseBulkStringDecoded(Encode(t), t, CRLF + rest);
    var r := ParseBulkString(bs + rest);
    assert r.Ok? && r.value.0 == BulkString(t) && r.value.1 == |bs|;
    assert r.value == (BulkString(t), |bs|);
  }

  /** A length line and a well-formed UTF-8 payload parse back to that payload's text. */
  lemma ParseBulkStringDecoded(payload: seq<Byte>, t: string, rest: seq<Byte>)
    requires |payload| <= USIZE_MAX && Decode(payload) == Some(t)
    ensures var r := ParseBulkString(HeaderBytes(DOLLAR, |payload|) + payload + rest);
      && r.Ok? && r.value.0 == BulkString(t)
      && r.value.1 == |HeaderBytes(DOLLAR, |payload|)| + |payload| + 2
  {
    ParseBulkStringFramed(|payload|, payload, rest);
  }

  /** A serialised bulk string is its length line, its UTF-8 bytes and CRLF. */
  lemma ToBytesBulkStringSplit(t: string, rest: seq<Byte>)
    ensures ToBytes(BulkString(t)) + rest
         == HeaderBytes(DOLLAR, |Encode(t)|) + Encode(t) + (CRLF + rest)
  {
  }

  /** Round trip of a bulk string through `to_bytes` and `parse`, for any text. */
  lemma ParseToBytesBulkString(t: string)
    requires |Encode(t)| <= USIZE_MAX
    ensures Parse(ToBytes(BulkString(t))) == Ok((BulkString(t), |ToBytes(BulkString(t))|))
  {
    ParseBulkStringOf(t, []);
    assert ToBytes(BulkString(t)) + [] == ToBytes(BulkString(t));
  }

  /** Round trip of a simple string through `to_bytes` and `parse`, for any text without a CR. */
  lemma ParseToBytesSimpleString(t: string)
    requires forall i | 0 <= i < |t| :: t[i] != '\r'
    ensures Parse(ToBytes(SimpleString(t))) == Ok((SimpleString(t), |ToBytes(SimpleString(t))|))
  {
    var e := Encode(t);
    var buf := ToBytes(SimpleString(t));
    EncodeAvoidsAsciiByte(t, CR);
    assert buf[1..] == e + CRLF + [];
    ReadTillCrlfAfter(e, []);
    DecodeEncode(t);
  }

  /** A serialised error is not accepted back by `parse`, which knows no `-` type byte. */
  lemma ParseToBytesSimpleError(t: string)
    ensures Parse(ToBytes(SimpleError(t))) == Err(Other("Invalid RESP data type"))
  {
  }

  // =======================================================================
  // The bulk-string length counted in characters

  /** For ASCII text the code as written and the byte-counting serialiser agree. */
  lemma ToBytesAsWrittenAscii(v: RespType)
    requires Encodable(v)
    requires v.BulkString? ==> IsAscii(v.s)
    ensures ToBytesAsWritten(v) == ToBytes(v)
  {
    if v.BulkString? {
      EncodeAscii(v.s);
    }
  }

  /**
    * The code as written breaks the round trip for non-ASCII text: "é" is
    * written as `$1\r\n` followed by its two bytes C3 A9, and parsing reads
    * back the single byte C3, which is not UTF-8.
    */
  lemma ToBytesAsWrittenBreaksRoundTrip()
    ensures Parse(ToBytesAsWritten(BulkString("é")))
         == Err(InvalidBulkString("Bulk string value is not a valid UTF-8 string"))
  {
    var t := "é";
    assert Encode(t) == [0xC3, 0xA9];
    assert ToBytesAsWritten(BulkString(t)) == HeaderBytes(DOLLAR, 1) + [0xC3] + [0xA9, CR, LF];
    ParseBulkStringFramed(1, [0xC3], [0xA9, CR, LF]);
    assert Decode([0xC3]) == None;
  }
}
