/**
  * The command frame codec (src/resp/frame.rs): reassembles a command, sent
  * as a RESP array of bulk strings, from a byte buffer that may hold only
  * part of it, and writes replies.
  *
  * The decoder is specified by the pure function DecodeSpec over the
  * decoder's abstract state (no builder, or the announced part count and the
  * parts gathered so far) and the buffer; the `Decode` method of
  * RespCommandFrame is proved to compute it.
  */
module RespFrame {
  import opened Wrappers
  import opened Utf8
  import opened IntText
  import opened Resp
  import opened RespTypes

  /** `FrameError`: a wrapper around the parse error, displayed as that error. */
  datatype FrameError = FrameError(err: RespError)
  {
    function ToString(): (text: string)
      ensures text == err.msg
    {
      err.ToString()
    }
  }

  /** The decoder's `std::io::Error`: always of kind `InvalidData`, carrying a FrameError. */
  datatype IoError = InvalidData(inner: FrameError)

  /** The abstract state of a command builder: the announced part count and the parts so far. */
  datatype Pending = Pending(numParts: nat, parts: seq<RespType>)

  /** What one call of `decode` returns, the decoder state after it and what is left in the buffer. */
  datatype Step = Step(out: Result<Option<seq<RespType>>, IoError>, state: Option<Pending>, rest: seq<Byte>)

  // -----------------------------------------------------------------------
  // The specification of `decode`

  /**
    * The loop of `decode` once a builder exists: read bulk strings from the
    * front of `src` until the command is complete, the buffer runs out, or
    * an error occurs. Incomplete input leaves the buffer at the start of the
    * bulk string that could not be read yet.
    */
  function DecodeParts(p: Pending, src: seq<Byte>): (s: Step)
    decreases |src|
    ensures |s.rest| <= |src|
    ensures s.state.None? <==> s.out.Ok? && s.out.value.Some?
  {
    if |src| == 0 then Step(Ok(None), Some(p), src)
    else
      match ParseBulkStringLen(src)
      case Err(e) => Step(Err(InvalidData(FrameError(e))), Some(p), src)
      case Ok(None) => Step(Ok(None), Some(p), src)
      case Ok(Some((n, k))) =>
        if |src| < n + k + 2 then Step(Ok(None), Some(p), src)
        else
          match NewBulkString(src)
          case Err(e) => Step(Err(InvalidData(FrameError(e))), Some(p), src)
          case Ok((v, m)) =>
            ParseBulkStringCount(src, n, k);
            var q := Pending(p.numParts, p.parts + [v]);
            if q.numParts == |q.parts| then Step(Ok(Some(q.parts)), None, src[m..])
            else DecodeParts(q, src[m..])
  }

  /**
    * `decode`: without a builder, the array header is read first; an
    * incomplete header or a wrong type byte leaves everything as it was.
    */
  function DecodeSpec(st: Option<Pending>, src: seq<Byte>): (s: Step)
    ensures |s.rest| <= |src|
    ensures s.out.Ok? && s.out.value.Some? ==> s.state.None?
  {
    match st
    case Some(p) => DecodeParts(p, src)
    case None =>
      match ParseArrayLen(src)
      case Err(e) => Step(Err(InvalidData(FrameError(e))), None, src)
      case Ok(None) => Step(Ok(None), None, src)
      case Ok(Some((len, k))) => DecodeParts(Pending(len, []), src[k..])
  }

  // -----------------------------------------------------------------------
  // The mutable objects

  /** The part of `bytes::BytesMut` the codec uses: a byte buffer consumed from the front and appended to. */
  class BytesMut {
    var bytes: seq<Byte>

    constructor (init: seq<Byte>)
      ensures bytes == init
    {
      bytes := init;
    }

    /** `advance`: drop `cnt` bytes from the front. */
    method Advance(cnt: nat)
      requires cnt <= |bytes|
      modifies this
      ensures bytes == old(bytes)[cnt..]
    {
      bytes := bytes[cnt..];
    }

    /** `put_slice`: append `s` at the end. */
    method PutSlice(s: seq<Byte>)
      modifies this
      ensures bytes == old(bytes) + s
    {
      bytes := bytes + s;
    }
  }

  /** `CommandBuilder`: the parts of a command received so far. */
  class CommandBuilder {
    var parts: seq<RespType>
    var numParts: nat
    var partsParsed: nat

    /** The count of parsed parts is the number of parts held. */
    ghost predicate Valid()
      reads this
    {
      partsParsed == |parts|
    }

    /** `CommandBuilder::new`: no parts yet. */
    constructor (numParts: nat)
      ensures Valid()
      ensures parts == [] && partsParsed == 0 && this.numParts == numParts
    {
      parts := [];
      this.numParts := numParts;
      partsParsed := 0;
    }

    /** `add_part`: append at the end, in arrival order. */
    method AddPart(part: RespType)
      requires Valid()
      modifies this
      ensures Valid()
      ensures parts == old(parts) + [part] && numParts == old(numParts)
      ensures partsParsed == old(partsParsed) + 1
    {
      parts := parts + [part];
      partsParsed := partsParsed + 1;
    }

    /** `all_parts_received`: as many parts are held as were announced. */
    function AllPartsReceived(): (done: bool)
      requires Valid()
      reads this
      ensures done <==> |parts| == numParts
    {
      numParts == partsParsed
    }

    /** `build`: the parts, unchanged and in arrival order, one per parsed part. */
    function Build(): (cmd: seq<RespType>)
      requires Valid()
      reads this
      ensures |cmd| == partsParsed
      ensures forall i | 0 <= i < |cmd| :: cmd[i] == parts[i]
    {
      parts
    }
  }

  /** `RespCommandFrame`: the codec, holding a builder while a command is incomplete. */
  class RespCommandFrame {
    var cmdBuilder: CommandBuilder?

    ghost predicate Valid()
      reads this, cmdBuilder
    {
      cmdBuilder != null ==> cmdBuilder.Valid()
    }

    /** The abstract decoder state. */
    ghost function State(): Option<Pending>
      reads this, cmdBuilder
    {
      if cmdBuilder == null then None else Some(Pending(cmdBuilder.numParts, cmdBuilder.parts))
    }

    /** `RespCommandFrame::new`: no builder. */
    constructor ()
      ensures Valid() && State() == None
    {
      cmdBuilder := null;
    }

    /** `decode`: consumes what it can from `src` and computes DecodeSpec. */
    method Decode(src: BytesMut) returns (r: Result<Option<seq<RespType>>, IoError>)
      requires Valid()
      modifies this, src, cmdBuilder
      ensures Valid()
      ensures var s := DecodeSpec(old(State()), old(src.bytes));
        r == s.out && State() == s.state && src.bytes == s.rest
    {
      if cmdBuilder == null {
        match ParseArrayLen(src.bytes)
        case Err(e) =>
          return Err(InvalidData(FrameError(e)));
        case Ok(None) =>
          return Ok(None);
        case Ok(Some((len, k))) =>
          cmdBuilder := new CommandBuilder(len);
          src.Advance(k);
      }
      while |src.bytes| > 0
        invariant cmdBuilder != null && cmdBuilder.Valid()
        invariant cmdBuilder == old(cmdBuilder) || fresh(cmdBuilder)
        invariant DecodeSpec(old(State()), old(src.bytes))
               == DecodeParts(Pending(cmdBuilder.numParts, cmdBuilder.parts), src.bytes)
        decreases |src.bytes|
      {
        var lenLine := ParseBulkStringLen(src.bytes);
        if lenLine.Err? {
          return Err(InvalidData(FrameError(lenLine.error)));
        }
        if lenLine.value.None? {
          return Ok(None);
        }
        var (n, k) := lenLine.value.value;
        if |src.bytes| < n + k + 2 {
          return Ok(None);
        }
        var parsed := NewBulkString(src.bytes);
        if parsed.Err? {
          return Err(InvalidData(FrameError(parsed.error)));
        }
        var (v, m) := parsed.value;
        DecodePartsStep(Pending(cmdBuilder.numParts, cmdBuilder.parts), src.bytes, n, k, v, m);
        cmdBuilder.AddPart(v);
        src.Advance(m);
        if cmdBuilder.AllPartsReceived() {
          var cmd := cmdBuilder.Build();
          cmdBuilder := null;
          return Ok(Some(cmd));
        }
      }
      return Ok(None);
    }

    /** `encode`: appends the value's bytes to `dst`, leaving what was there before. */
    method Encode(item: RespType, dst: BytesMut) returns (r: Result<Unit, IoError>)
      requires Encodable(item)
      modifies dst
      ensures r.Ok?
      ensures dst.bytes == old(dst.bytes) + ToBytes(item)
    {
      dst.PutSlice(ToBytes(item));
      return Ok(Unit);
    }
  }

  // =======================================================================
  // Properties of the decoder

  /** One bulk string read in full: it is appended, and the command either completes or decoding goes on after it. */
  lemma DecodePartsStep(p: Pending, src: seq<Byte>, n: nat, k: nat, v: RespType, m: nat)
    requires |src| > 0 && ParseBulkStringLen(src) == Ok(Some((n, k))) && n + k + 2 <= |src|
    requires ParseBulkString(src) == Ok((v, m))
    ensures m == n + k + 2 <= |src|
    ensures var q := Pending(p.numParts, p.parts + [v]);
      DecodeParts(p, src)
      == if p.numParts == |q.parts| then Step(Ok(Some(q.parts)), None, src[m..]) else DecodeParts(q, src[m..])
  {
    ParseBulkStringCount(src, n, k);
  }

  /** `parts` holds the parts gathered in `p`, followed only by bulk strings. */
  predicate ExtendsWithBulks(p: Pending, parts: seq<RespType>)
  {
    p.parts <= parts && forall i | |p.parts| <= i < |parts| :: parts[i].BulkString?
  }

  lemma ExtendsWithBulksAppend(p: Pending, v: RespType, parts: seq<RespType>)
    requires v.BulkString?
    requires ExtendsWithBulks(Pending(p.numParts, p.parts + [v]), parts)
    ensures ExtendsWithBulks(p, parts)
  {
    assert parts[|p.parts|] == v;
  }

  /** The bulk string read in full is the last one announced: the command is returned. */
  lemma DecodePartsComplete(p: Pending, src: seq<Byte>, n: nat, k: nat, v: RespType, m: nat)
    requires |src| > 0 && ParseBulkStringLen(src) == Ok(Some((n, k))) && n + k + 2 <= |src|
    requires ParseBulkString(src) == Ok((v, m)) && p.numParts == |p.parts| + 1
    ensures m <= |src| && DecodeParts(p, src) == Step(Ok(Some(p.parts + [v])), None, src[m..])
  {
    DecodePartsStep(p, src, n, k, v, m);
  }

  /** The bulk string read in full is not the last one announced: decoding goes on after it. */
  lemma DecodePartsContinue(p: Pending, src: seq<Byte>, n: nat, k: nat, v: RespType, m: nat)
    requires |src| > 0 && ParseBulkStringLen(src) == Ok(Some((n, k))) && n + k + 2 <= |src|
    requires ParseBulkString(src) == Ok((v, m)) && p.numParts != |p.parts| + 1
    ensures m <= |src| && DecodeParts(p, src) == DecodeParts(Pending(p.numParts, p.parts + [v]), src[m..])
  {
    DecodePartsStep(p, src, n, k, v, m);
  }

  /** `src` starts with a bulk string that is fully buffered and parses. */
  predicate ReadsPart(src: seq<Byte>)
  {
    && |src| > 0
    && ParseBulkStringLen(src).Ok? && ParseBulkStringLen(src).value.Some?
    && ParseBulkStringLen(src).value.value.0 + ParseBulkStringLen(src).value.value.1 + 2 <= |src|
    && ParseBulkString(src).Ok?
  }

  /** When no bulk string can be read, decoding stops where it is, keeping the builder. */
  lemma DecodePartsStops(p: Pending, src: seq<Byte>)
    requires !ReadsPart(src)
    ensures var s := DecodeParts(p, src);
      s.rest == src && s.state == Some(p) && (s.out.Err? || s.out.value.None?)
  {
    if |src| > 0 && ParseBulkStringLen(src).Ok? && ParseBulkStringLen(src).value.Some? {
      var (n, k) := ParseBulkStringLen(src).value.value;
      if n + k + 2 <= |src| {
        ParseBulkStringCount(src, n, k);
      }
    }
  }

  /** Whatever `decode` returns, it has consumed a prefix of the buffer: what is left is a suffix. */
  lemma {:induction false} DecodePartsConsumes(p: Pending, src: seq<Byte>)
    ensures IsSuffix(DecodeParts(p, src).rest, src)
    decreases |src|
  {
    if ReadsPart(src) {
      var (n, k) := ParseBulkStringLen(src).value.value;
      var (v, m) := ParseBulkString(src).value;
      DecodePartsStep(p, src, n, k, v, m);
      var q := Pending(p.numParts, p.parts + [v]);
      if p.numParts != |q.parts| {
        DecodePartsConsumes(q, src[m..]);
        SuffixOfSuffix(src, m, DecodeParts(q, src[m..]).rest);
      }
    } else {
      DecodePartsStops(p, src);
      assert src[|src| - |src|..] == src;
    }
  }

  /** `r` is what is left of `src` once a prefix is dropped. */
  predicate IsSuffix(r: seq<Byte>, src: seq<Byte>)
  {
    |r| <= |src| && r == src[|src| - |r|..]
  }

  /** A suffix of a suffix is a suffix. */
  lemma SuffixOfSuffix(src: seq<Byte>, m: nat, r: seq<Byte>)
    requires m <= |src| && IsSuffix(r, src[m..])
    ensures IsSuffix(r, src)
  {
  }

  /**
    * A command is returned only with exactly the announced number of parts,
    * the earlier parts first and then bulk strings, and the builder is
    * dropped; otherwise the builder stays, keeping its count and its parts.
    */
  lemma {:induction false} DecodePartsParts(p: Pending, src: seq<Byte>)
    ensures var s := DecodeParts(p, src);
      && (s.out.Ok? && s.out.value.Some? ==>
            && s.state.None?
            && |s.out.value.value| == p.numParts
            && ExtendsWithBulks(p, s.out.value.value))
      && (s.out.Err? || s.out.value.None? ==>
            && s.state.Some?
            && s.state.value.numParts == p.numParts
            && ExtendsWithBulks(p, s.state.value.parts))
    decreases |src|
  {
    if ReadsPart(src) {
      var (n, k) := ParseBulkStringLen(src).value.value;
      var (v, m) := ParseBulkString(src).value;
      DecodePartsStep(p, src, n, k, v, m);
      ParseBulkStringCount(src, n, k);
      var q := Pending(p.numParts, p.parts + [v]);
      if p.numParts != |q.parts| {
        DecodePartsParts(q, src[m..]);
        var s := DecodeParts(q, src[m..]);
        if s.out.Ok? && s.out.value.Some? {
          ExtendsWithBulksAppend(p, v, s.out.value.value);
        } else {
          ExtendsWithBulksAppend(p, v, s.state.value.parts);
        }
      } else {
        ExtendsWithBulksAppend(p, v, q.parts);
      }
    } else {
      DecodePartsStops(p, src);
    }
  }

  /** With no builder, an incomplete array header leaves the state and the buffer untouched. */
  lemma DecodeHeaderIncomplete(src: seq<Byte>)
    requires |src| == 0 || (src[0] == STAR && ReadTillCrlf(src[1..]).None?)
    ensures DecodeSpec(None, src) == Step(Ok(None), None, src)
  {
  }

  /**
    * While a command is being gathered, a bulk string whose length line or
    * payload with its CRLF is not fully buffered stops decoding before it,
    * keeping the parts gathered so far.
    */
  lemma DecodePartsIncomplete(p: Pending, src: seq<Byte>)
    requires |src| > 0 && src[0] == DOLLAR
    requires ReadTillCrlf(src[1..]).None?
          || (ParseBulkStringLen(src).Ok? && ParseBulkStringLen(src).value.Some?
              && |src| < ParseBulkStringLen(src).value.value.0 + ParseBulkStringLen(src).value.value.1 + 2)
    ensures DecodeParts(p, src) == Step(Ok(None), Some(p), src)
  {
  }

  /**
    * As written, the completeness test at src/resp/frame.rs:115 adds the
    * declared length, the header length and 2 as `usize`. For the largest
    * declared length a debug build panics there, and a release build wraps
    * the sum to the header length plus one, so any buffer holding a byte
    * past the length line passes the test and reaches `new_bulk_string`,
    * whose own sum then wraps (RespTypes.BulkEndWrapsAsWritten). The model
    * compares unbounded sums: the buffer is short, so decoding waits.
    */
  lemma DecodeNeedWrapsAsWritten(p: Pending, src: seq<Byte>, k: nat)
    requires k < |src| <= USIZE_MAX
    requires ParseBulkStringLen(src) == Ok(Some((USIZE_MAX, k)))
    ensures WrappingAdd(WrappingAdd(USIZE_MAX, k), 2) == k + 1 <= |src|
    ensures BulkHeader(src) == Ok((USIZE_MAX, k)) && k + USIZE_MAX > USIZE_MAX
    ensures DecodeParts(p, src) == Step(Ok(None), Some(p), src)
  {
  }

  /** Without a builder, a buffer that does not start with `*` is refused as an invalid array, and nothing is consumed. */
  lemma DecodeArrayHeaderError(src: seq<Byte>)
    requires |src| > 0 && src[0] != STAR
    ensures DecodeSpec(None, src)
         == Step(Err(InvalidData(FrameError(InvalidArray("Invalid RESP array: expected '*'")))), None, src)
  {
  }

  /** A parse failure is reported as InvalidData carrying the parser's error, and nothing is consumed past the failing value. */
  lemma DecodePartsError(p: Pending, src: seq<Byte>)
    requires |src| > 0 && ParseBulkStringLen(src).Err?
    ensures DecodeParts(p, src) == Step(Err(InvalidData(FrameError(ParseBulkStringLen(src).error))), Some(p), src)
  {
  }

  // -----------------------------------------------------------------------
  // A command of `*0`

  /** A builder announced with zero parts never completes: completion is checked only after a part is added. */
  lemma {:induction false} ZeroPartsNeverComplete(parts: seq<RespType>, src: seq<Byte>)
    ensures var s := DecodeParts(Pending(0, parts), src);
      !(s.out.Ok? && s.out.value.Some?) && s.state.Some?
    decreases |src|
  {
    if |src| > 0 && ParseBulkStringLen(src).Ok? && ParseBulkStringLen(src).value.Some? {
      var (n, k) := ParseBulkStringLen(src).value.value;
      if n + k + 2 <= |src| && ParseBulkString(src).Ok? {
        var (v, m) := ParseBulkString(src).value;
        DecodePartsStep(Pending(0, parts), src, n, k, v, m);
        ZeroPartsNeverComplete(parts + [v], src[m..]);
      }
    }
  }

  /** `*0\r\n` followed by anything never yields a command. */
  lemma EmptyArrayNeverCompletes(rest: seq<Byte>)
    ensures var s := DecodeSpec(None, HeaderBytes(STAR, 0) + rest);
      !(s.out.Ok? && s.out.value.Some?) && s.state.Some?
  {
    var h := HeaderBytes(STAR, 0);
    ParseLengthLineOf(STAR, InvalidArray("Invalid RESP array: expected '*'"), 0, rest);
    ZeroPartsNeverComplete([], (h + rest)[|h|..]);
  }

  /**
    * A command `decode` returns is never empty, so taking its first element
    * as the command name cannot fail: an array announcing no parts never
    * completes.
    */
  lemma DecodedCommandNonEmpty(st: Option<Pending>, src: seq<Byte>)
    ensures var s := DecodeSpec(st, src);
      s.out.Ok? && s.out.value.Some? ==> |s.out.value.value| > 0
  {
    match st {
      case Some(p) =>
        DecodedPartsNonEmpty(p, src);
      case None =>
        match ParseArrayLen(src) {
          case Ok(Some((len, k))) => DecodedPartsNonEmpty(Pending(len, []), src[k..]);
          case _ =>
        }
    }
  }

  /** DecodedCommandNonEmpty once a builder exists. */
  lemma DecodedPartsNonEmpty(p: Pending, src: seq<Byte>)
    ensures var s := DecodeParts(p, src);
      s.out.Ok? && s.out.value.Some? ==> |s.out.value.value| == p.numParts > 0
  {
    DecodePartsParts(p, src);
    if p.numParts == 0 {
      ZeroPartsNeverComplete(p.parts, src);
    }
  }

  // -----------------------------------------------------------------------
  // Reading in pieces

  /**
    * What a later call sees after the step `s` of the gathering loop when
    * `b` arrives: the loop resumes with the builder on what was left plus
    * `b` if the step needed more data; otherwise the step's outcome stands.
    */
  function ResumeParts(s: Step, b: seq<Byte>): Step
  {
    if s.out == Ok(None) && s.state.Some? then DecodeParts(s.state.value, s.rest + b)
    else Step(s.out, s.state, s.rest + b)
  }

  /**
    * Feeding `a` and then `b` is the same as feeding `a + b`: when the call
    * on `a` needs more data, the call on what it left plus `b` gives what a
    * single call on `a + b` gives; otherwise the call on `a + b` returns the
    * same thing and leaves `b` on top of the same remainder.
    */
  lemma {:induction false} DecodePartsExtend(p: Pending, a: seq<Byte>, b: seq<Byte>)
    ensures var s := DecodeParts(p, a);
      DecodeParts(p, a + b) == ResumeParts(s, b)
    decreases |a|
  {
    if |a| == 0 {
      assert a + b == b;
      assert DecodeParts(p, a) == Step(Ok(None), Some(p), a);
      return;
    }
    var lenLine := ParseBulkStringLen(a);
    if lenLine == Ok(None) {
      assert DecodeParts(p, a) == Step(Ok(None), Some(p), a);
      return;
    }
    ParseLengthLineExtend(a, b, DOLLAR, InvalidBulkString("Invalid RESP bulk string: expected '$'"));
    if lenLine.Err? {
      var err := Err(InvalidData(FrameError(lenLine.error)));
      assert DecodeParts(p, a) == Step(err, Some(p), a);
      assert DecodeParts(p, a + b) == Step(err, Some(p), a + b);
      return;
    }
    var (n, k) := lenLine.value.value;
    if |a| < n + k + 2 {
      assert DecodeParts(p, a) == Step(Ok(None), Some(p), a);
      return;
    }
    DecodePartsExtendOne(p, a, b, n, k);
  }

  /** The step of DecodePartsExtend where the first bulk string of `a` is fully buffered. */
  lemma {:induction false} DecodePartsExtendOne(p: Pending, a: seq<Byte>, b: seq<Byte>, n: nat, k: nat)
    requires |a| > 0 && ParseBulkStringLen(a) == Ok(Some((n, k))) && n + k + 2 <= |a|
    requires ParseBulkStringLen(a + b) == Ok(Some((n, k)))
    ensures var s := DecodeParts(p, a);
      DecodeParts(p, a + b) == ResumeParts(s, b)
    decreases |a|, 2
  {
    ParseBulkStringCount(a, n, k);
    ParseBulkStringExtend(a, b, n, k);
    var r := ParseBulkString(a);
    if r.Err? {
      DecodePartsBulkError(p, a, n, k);
      DecodePartsBulkError(p, a + b, n, k);
    } else {
      var (v, m) := r.value;
      DecodePartsExtendRead(p, a, b, n, k, v, m);
    }
  }

  /** A bulk string that is fully buffered but fails to parse stops decoding with that error, consuming nothing. */
  lemma DecodePartsBulkError(p: Pending, src: seq<Byte>, n: nat, k: nat)
    requires |src| > 0 && ParseBulkStringLen(src) == Ok(Some((n, k))) && n + k + 2 <= |src|
    requires ParseBulkString(src).Err?
    ensures DecodeParts(p, src) == Step(Err(InvalidData(FrameError(ParseBulkString(src).error))), Some(p), src)
  {
  }

  /** DecodePartsExtendOne when the first bulk string of `a`, of `m` bytes, is read. */
  lemma {:induction false} DecodePartsExtendRead(p: Pending, a: seq<Byte>, b: seq<Byte>, n: nat, k: nat, v: RespType, m: nat)
    requires |a| > 0 && ParseBulkStringLen(a) == Ok(Some((n, k))) && n + k + 2 <= |a|
    requires ParseBulkStringLen(a + b) == Ok(Some((n, k)))
    requires ParseBulkString(a) == Ok((v, m)) && ParseBulkString(a + b) == Ok((v, m))
    ensures DecodeParts(p, a + b) == ResumeParts(DecodeParts(p, a), b)
    decreases |a|, 1
  {
    ParseBulkStringCount(a, n, k);
    var q := Pending(p.numParts, p.parts + [v]);
    assert (a + b)[m..] == a[m..] + b;
    if p.numParts == |q.parts| {
      DecodePartsComplete(p, a, n, k, v, m);
      DecodePartsComplete(p, a + b, n, k, v, m);
    } else {
      DecodePartsContinue(p, a, n, k, v, m);
      DecodePartsContinue(p, a + b, n, k, v, m);
      DecodePartsExtendContinued(p, q, a, b, m);
    }
  }

  /**
    * The step of DecodePartsExtend where the first bulk string of `a`, of
    * `m` bytes, is read and more parts are expected: both calls go on with
    * the same builder after it.
    */
  lemma {:induction false} DecodePartsExtendContinued(p: Pending, q: Pending, a: seq<Byte>, b: seq<Byte>, m: nat)
    requires 0 < m <= |a|
    requires DecodeParts(p, a) == DecodeParts(q, a[m..])
    requires DecodeParts(p, a + b) == DecodeParts(q, a[m..] + b)
    ensures DecodeParts(p, a + b) == ResumeParts(DecodeParts(p, a), b)
    decreases |a|, 0
  {
    DecodePartsExtend(q, a[m..], b);
  }

  /** `decode` on `a + b` is `decode` on `a` followed, if it needed more data, by `decode` on what is left plus `b`. */
  lemma DecodeSpecExtend(st: Option<Pending>, a: seq<Byte>, b: seq<Byte>)
    ensures var s := DecodeSpec(st, a);
      DecodeSpec(st, a + b)
      == if s.out == Ok(None) then DecodeSpec(s.state, s.rest + b) else Step(s.out, s.state, s.rest + b)
  {
    if st.Some? {
      DecodePartsResume(st.value, a, b);
    } else if ParseArrayLen(a) != Ok(None) {
      ParseLengthLineExtend(a, b, STAR, InvalidArray("Invalid RESP array: expected '*'"));
      if ParseArrayLen(a).Ok? {
        var (len, k) := ParseArrayLen(a).value.value;
        assert (a + b)[k..] == a[k..] + b;
        DecodePartsResume(Pending(len, []), a[k..], b);
      }
    }
  }

  /** DecodePartsExtend in terms of `decode`: a step that needs more data always keeps its builder. */
  lemma DecodePartsResume(p: Pending, a: seq<Byte>, b: seq<Byte>)
    ensures var s := DecodeParts(p, a);
      DecodeParts(p, a + b)
      == if s.out == Ok(None) then DecodeSpec(s.state, s.rest + b) else Step(s.out, s.state, s.rest + b)
  {
    DecodePartsExtend(p, a, b);
    DecodePartsParts(p, a);
  }

  // -----------------------------------------------------------------------
  // Round trip with the client's encoding of a command

  /** The bulk strings of a command, serialised one after the other. */
  function PartsBytes(strs: seq<string>): seq<Byte>
  {
    if strs == [] then [] else ToBytes(BulkString(strs[0])) + PartsBytes(strs[1..])
  }

  /** A command as a client sends it: an array header and one bulk string per text. */
  function CommandBytes(strs: seq<string>): seq<Byte>
  {
    HeaderBytes(STAR, |strs|) + PartsBytes(strs)
  }

  /** Every text's UTF-8 length fits in a usize. */
  predicate Sendable(strs: seq<string>)
  {
    forall i | 0 <= i < |strs| :: |Encode(strs[i])| <= USIZE_MAX
  }

  /** Reading one serialised bulk string from the front of the buffer. */
  lemma DecodePartsOne(p: Pending, t: string, tail: seq<Byte>)
    requires |Encode(t)| <= USIZE_MAX
    ensures var bs := ToBytes(BulkString(t));
      var q := Pending(p.numParts, p.parts + [BulkString(t)]);
      DecodeParts(p, bs + tail)
      == if p.numParts == |q.parts| then Step(Ok(Some(q.parts)), None, tail) else DecodeParts(q, tail)
  {
    var bs := ToBytes(BulkString(t));
    var e := Encode(t);
    var src := bs + tail;
    ParseBulkStringLenOf(t, tail);
    ParseBulkStringOf(t, tail);
    ToBytesBulkStringSplit(t, []);
    assert |bs| == |e| + |HeaderBytes(DOLLAR, |e|)| + 2;
    DecodePartsStep(p, src, |e|, |HeaderBytes(DOLLAR, |e|)|, BulkString(t), |bs|);
    assert src[|bs|..] == tail;
  }

  /** DecodePartsOne when the bulk string read is the last one expected. */
  lemma DecodePartsOneLast(p: Pending, t: string, tail: seq<Byte>)
    requires |Encode(t)| <= USIZE_MAX && p.numParts == |p.parts| + 1
    ensures DecodeParts(p, ToBytes(BulkString(t)) + tail) == Step(Ok(Some(p.parts + [BulkString(t)])), None, tail)
  {
    DecodePartsOne(p, t, tail);
  }

  /** DecodePartsOne when more bulk strings are expected after the one read. */
  lemma DecodePartsOneMore(p: Pending, t: string, tail: seq<Byte>)
    requires |Encode(t)| <= USIZE_MAX && p.numParts != |p.parts| + 1
    ensures DecodeParts(p, ToBytes(BulkString(t)) + tail) == DecodeParts(Pending(p.numParts, p.parts + [BulkString(t)]), tail)
  {
    DecodePartsOne(p, t, tail);
  }

  /** The texts after the first of a sendable command are sendable. */
  lemma SendableTail(strs: seq<string>)
    requires 0 < |strs| && Sendable(strs)
    ensures Sendable(strs[1..])
  {
    forall i | 0 <= i < |strs[1..]| ensures |Encode(strs[1..][i])| <= USIZE_MAX {
      assert strs[1..][i] == strs[i + 1];
    }
  }

  /** The serialised texts are the first one's bulk string followed by the others'. */
  lemma PartsBytesFirst(strs: seq<string>, rest: seq<Byte>)
    requires 0 < |strs|
    ensures PartsBytes(strs) + rest == ToBytes(BulkString(strs[0])) + (PartsBytes(strs[1..]) + rest)
    ensures BulkStrings(strs) == [BulkString(strs[0])] + BulkStrings(strs[1..])
  {
  }

  /** The serialised bulk strings of the remaining texts complete a builder that expects exactly them. */
  lemma {:induction false} DecodePartsOf(p: Pending, strs: seq<string>, rest: seq<Byte>)
    requires 0 < |strs| && Sendable(strs) && p.numParts == |p.parts| + |strs|
    ensures DecodeParts(p, PartsBytes(strs) + rest)
         == Step(Ok(Some(p.parts + BulkStrings(strs))), None, rest)
    decreases |strs|
  {
    var t := strs[0];
    var tail := PartsBytes(strs[1..]) + rest;
    PartsBytesFirst(strs, rest);
    var q := Pending(p.numParts, p.parts + [BulkString(t)]);
    assert q.parts + BulkStrings(strs[1..]) == p.parts + BulkStrings(strs);
    if |strs| == 1 {
      assert strs[1..] == [];
      assert tail == rest;
      assert p.parts + BulkStrings(strs) == q.parts;
      DecodePartsOneLast(p, t, rest);
    } else {
      SendableTail(strs);
      DecodePartsOneMore(p, t, tail);
      DecodePartsOf(q, strs[1..], rest);
    }
  }

  /**
    * A whole command, followed by anything, is decoded in one call from
    * a fresh decoder: the texts come back as bulk strings, in order, and
    * exactly the command's bytes are consumed.
    */
  lemma DecodeCommandBytes(strs: seq<string>, rest: seq<Byte>)
    requires 0 < |strs| <= USIZE_MAX && Sendable(strs)
    ensures DecodeSpec(None, CommandBytes(strs) + rest) == Step(Ok(Some(BulkStrings(strs))), None, rest)
  {
    DecodeHeaderAndParts(strs, rest);
    CommandBytesSplit(strs, rest);
  }

  /** DecodeCommandBytes with the command's bytes split into its header and its parts. */
  lemma DecodeHeaderAndParts(strs: seq<string>, rest: seq<Byte>)
    requires 0 < |strs| <= USIZE_MAX && Sendable(strs)
    ensures DecodeSpec(None, HeaderBytes(STAR, |strs|) + (PartsBytes(strs) + rest))
         == Step(Ok(Some(BulkStrings(strs))), None, rest)
  {
    DecodeFreshParts(strs, rest);
    DecodeArrayHeader(|strs|, PartsBytes(strs) + rest);
  }

  /** A fresh builder for as many parts as there are texts reads their serialised bulk strings back. */
  lemma DecodeFreshParts(strs: seq<string>, rest: seq<Byte>)
    requires 0 < |strs| && Sendable(strs)
    ensures DecodeParts(Pending(|strs|, []), PartsBytes(strs) + rest)
         == Step(Ok(Some(BulkStrings(strs))), None, rest)
  {
    DecodePartsOf(Pending(|strs|, []), strs, rest);
    assert [] + BulkStrings(strs) == BulkStrings(strs);
  }

  /** The bytes of a command followed by more bytes: its header, then its parts followed by them. */
  lemma CommandBytesSplit(strs: seq<string>, rest: seq<Byte>)
    ensures CommandBytes(strs) + rest == HeaderBytes(STAR, |strs|) + (PartsBytes(strs) + rest)
  {
  }

  /** With no builder, a complete array header starts a builder for that many parts on what follows it. */
  lemma DecodeArrayHeader(len: nat, body: seq<Byte>)
    requires len <= USIZE_MAX
    ensures DecodeSpec(None, HeaderBytes(STAR, len) + body) == DecodeParts(Pending(len, []), body)
  {
    var h := HeaderBytes(STAR, len);
    ParseLengthLineOf(STAR, InvalidArray("Invalid RESP array: expected '*'"), len, body);
    assert (h + body)[|h|..] == body;
  }

  /**
    * A command split across two reads at any point where the first read
    * needs more data: the second read, on what the first left plus the
    * rest, returns the whole command and empties the buffer.
    */
  lemma DecodeInTwoReads(strs: seq<string>, a: seq<Byte>, b: seq<Byte>)
    requires 0 < |strs| <= USIZE_MAX && Sendable(strs)
    requires a + b == CommandBytes(strs)
    requires DecodeSpec(None, a).out == Ok(None)
    ensures var s := DecodeSpec(None, a);
      DecodeSpec(s.state, s.rest + b) == Step(Ok(Some(BulkStrings(strs))), None, [])
  {
    DecodeSpecExtend(None, a, b);
    DecodeCommandBytes(strs, []);
    assert CommandBytes(strs) + [] == a + b;
  }
}
