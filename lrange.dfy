/** LRANGE of a list key between two signed indices (src/command/lrange.rs). */
module LRangeCommand {
  import opened Wrappers
  import opened IntText
  import opened RespTypes
  import opened CommandErrors
  import opened Storage

  datatype LRange = LRange(key: string, start: I64, end: I64)

  const INDEX_NOT_BULK: string := "Invalid argument. Value must be an integer in bulk string format"
  const START_NOT_INT: string := "Start index should be an integer"
  const END_NOT_INT: string := "End index should be an integer"

  /** An argument `with_args` accepts as an index: a bulk string whose text is an i64. */
  predicate IsIndex(v: RespType)
  {
    v.BulkString? && ParseI64(v.s).Some?
  }

  /** The error for an index argument that is not accepted. */
  function IndexError(v: RespType, notInt: string): string
  {
    if v.BulkString? then notInt else INDEX_NOT_BULK
  }

  /**
    * `with_args`: at least three arguments, the key as a bulk string, then
    * the start and the end index, each a bulk string holding an i64; the
    * rest are ignored. The arity is checked first, then the key, the start
    * and the end.
    */
  function WithArgs(args: seq<RespType>): (r: Result<LRange, CommandError>)
    ensures r.Ok? <==> |args| >= 3 && args[0].BulkString? && IsIndex(args[1]) && IsIndex(args[2])
    ensures r.Ok? ==> r.value == LRange(args[0].s, ParseI64(args[1].s).value, ParseI64(args[2].s).value)
    ensures |args| < 3 ==> r == Err(CommandErrors.Other(WrongArity("LRANGE")))
    ensures |args| >= 3 && !args[0].BulkString? ==> r == Err(CommandErrors.Other(KEY_NOT_BULK))
    ensures |args| >= 3 && args[0].BulkString? && !IsIndex(args[1])
            ==> r == Err(CommandErrors.Other(IndexError(args[1], START_NOT_INT)))
    ensures |args| >= 3 && args[0].BulkString? && IsIndex(args[1]) && !IsIndex(args[2])
            ==> r == Err(CommandErrors.Other(IndexError(args[2], END_NOT_INT)))
  {
    if |args| < 3 then Err(CommandErrors.Other(WrongArity("LRANGE")))
    else match args[0]
      case BulkString(key) =>
        (match args[1]
         case BulkString(startText) =>
           (match ParseI64(startText)
            case None => Err(CommandErrors.Other(START_NOT_INT))
            case Some(start) =>
              (match args[2]
               case BulkString(endText) =>
                 (match ParseI64(endText)
                  case None => Err(CommandErrors.Other(END_NOT_INT))
                  case Some(end) => Ok(LRange(key, start, end)))
               case _ => Err(CommandErrors.Other(INDEX_NOT_BULK))))
         case _ => Err(CommandErrors.Other(INDEX_NOT_BULK)))
      case _ => Err(CommandErrors.Other(KEY_NOT_BULK))
  }

  /** The argument texts a client sends for `c`: the key and both indices written in decimal. */
  function Words(c: LRange): seq<string>
  {
    [c.key, IntToString(c.start), IntToString(c.end)]
  }

  /** Parsing the arguments sent for `c`, followed by anything, gives `c` back: the indices survive their decimal text. */
  lemma WithArgsWords(c: LRange, extra: seq<RespType>)
    ensures WithArgs(BulkStrings(Words(c)) + extra) == Ok(c)
  {
    var args := BulkStrings(Words(c)) + extra;
    assert args[0] == BulkString(c.key);
    assert args[1] == BulkString(IntToString(c.start));
    assert args[2] == BulkString(IntToString(c.end));
    ParseI64IntToString(c.start);
    ParseI64IntToString(c.end);
  }

  /**
    * `apply`, given what the store's range query returned (the query
    * itself is not part of this model): the elements as bulk strings in
    * the same order, or the store's error as a simple error.
    */
  function Apply(out: Result<seq<string>, DBError>): (reply: RespType)
    ensures out.Ok? ==> reply.Array? && |reply.elems| == |out.value|
    ensures out.Ok? ==> forall i | 0 <= i < |out.value| :: reply.elems[i] == BulkString(out.value[i])
    ensures out.Err? ==> reply == SimpleError(out.error.ToString())
  {
    match out
    case Ok(elems) => Array(BulkStrings(elems))
    case Err(e) => SimpleError(e.ToString())
  }
}
