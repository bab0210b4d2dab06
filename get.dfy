/** GET of a string key (src/command/get.rs). */
module GetCommand {
  import opened Wrappers
  import opened RespTypes
  import opened CommandErrors
  import opened Storage
  import opened Db

  datatype Get = Get(key: string)

  /** `with_args`: at least one argument, the first a bulk string, which is the key; the rest are ignored. */
  function WithArgs(args: seq<RespType>): (r: Result<Get, CommandError>)
    ensures r.Ok? <==> |args| >= 1 && args[0].BulkString?
    ensures r.Ok? ==> r.value == Get(args[0].s)
    ensures |args| == 0 ==> r == Err(CommandErrors.Other(WrongArity("GET")))
    ensures |args| >= 1 && !args[0].BulkString? ==> r == Err(CommandErrors.Other(KEY_NOT_BULK))
  {
    if |args| < 1 then Err(CommandErrors.Other(WrongArity("GET")))
    else match args[0]
      case BulkString(k) => Ok(Get(k))
      case _ => Err(CommandErrors.Other(KEY_NOT_BULK))
  }

  /** The reply `apply` builds from the store's answer. */
  function Reply(out: Result<Option<string>, DBError>): RespType
  {
    match out
    case Ok(Some(s)) => BulkString(s)
    case Ok(None) => NullBulkString
    case Err(e) => SimpleError(e.ToString())
  }

  /**
    * `apply`: the string held at the key as a bulk string, the null bulk
    * string for a missing key, and the WRONGTYPE error for a key holding a
    * list; the store is only read.
    */
  method Apply(g: Get, db: DB) returns (reply: RespType)
    ensures g.key !in db.data ==> reply == NullBulkString
    ensures g.key in db.data && db.data[g.key].value.String? ==> reply == BulkString(db.data[g.key].value.s)
    ensures HoldsOtherType(db.data, g.key) ==> reply == SimpleError(WRONGTYPE_MSG)
    ensures reply == Reply(Lookup(db.data, g.key))
  {
    var out := db.Get(g.key);
    reply := Reply(out);
  }

  /** The argument texts a client sends for `g`. */
  function Words(g: Get): seq<string>
  {
    [g.key]
  }

  /** Parsing the arguments sent for `g`, followed by anything, gives `g` back. */
  lemma WithArgsWords(g: Get, extra: seq<RespType>)
    ensures WithArgs(BulkStrings(Words(g)) + extra) == Ok(g)
  {
    assert (BulkStrings(Words(g)) + extra)[0] == BulkString(g.key);
  }
}
