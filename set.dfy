/** SET of a string value (src/command/set.rs). */
module SetCommand {
  import opened Wrappers
  import opened RespTypes
  import opened CommandErrors
  import opened Storage
  import opened Db

  datatype Set = Set(key: string, value: string)

  /**
    * `with_args`: at least two arguments; the first, a bulk string, is the
    * key, the second, a bulk string, the value; the rest are ignored. The
    * arity is checked first, then the key, then the value.
    */
  function WithArgs(args: seq<RespType>): (r: Result<Set, CommandError>)
    ensures r.Ok? <==> |args| >= 2 && args[0].BulkString? && args[1].BulkString?
    ensures r.Ok? ==> r.value == Set(args[0].s, args[1].s)
    ensures |args| < 2 ==> r == Err(CommandErrors.Other(WrongArity("SET")))
    ensures |args| >= 2 && !args[0].BulkString? ==> r == Err(CommandErrors.Other(KEY_NOT_BULK))
    ensures |args| >= 2 && args[0].BulkString? && !args[1].BulkString?
            ==> r == Err(CommandErrors.Other(VALUE_NOT_BULK))
  {
    if |args| < 2 then Err(CommandErrors.Other(WrongArity("SET")))
    else if !args[0].BulkString? then Err(CommandErrors.Other(KEY_NOT_BULK))
    else if !args[1].BulkString? then Err(CommandErrors.Other(VALUE_NOT_BULK))
    else Ok(Set(args[0].s, args[1].s))
  }

  /**
    * `apply`: stores the value as a string and answers OK, unless the key
    * holds a list, in which case the store is unchanged and the answer is
    * the WRONGTYPE error. After an OK, GET of the key gives the value.
    */
  method Apply(c: Set, db: DB) returns (reply: RespType)
    modifies db
    ensures HoldsOtherType(old(db.data), c.key) ==> reply == SimpleError(WRONGTYPE_MSG) && db.data == old(db.data)
    ensures !HoldsOtherType(old(db.data), c.key)
            ==> reply == BulkString("OK") && db.data == old(db.data)[c.key := Entry(String(c.value))]
    ensures reply == BulkString("OK") ==> Lookup(db.data, c.key) == Ok(Some(c.value))
  {
    var out := db.Set(c.key, String(c.value));
    match out {
      case Ok(_) =>
        reply := BulkString("OK");
        LookupAfterStore(old(db.data), c.key, c.value);
      case Err(e) => reply := SimpleError(e.ToString());
    }
  }

  /** The argument texts a client sends for `c`. */
  function Words(c: Set): seq<string>
  {
    [c.key, c.value]
  }

  /** Parsing the arguments sent for `c`, followed by anything, gives `c` back. */
  lemma WithArgsWords(c: Set, extra: seq<RespType>)
    ensures WithArgs(BulkStrings(Words(c)) + extra) == Ok(c)
  {
    var args := BulkStrings(Words(c)) + extra;
    assert args[0] == BulkString(c.key) && args[1] == BulkString(c.value);
  }
}
