/** PING with an optional message to echo (src/command/ping.rs). */
module PingCommand {
  import opened Wrappers
  import opened RespTypes
  import opened CommandErrors

  datatype Ping = Ping(message: Option<string>)

  /**
    * `with_args`: no arguments is a plain PING; otherwise the first
    * argument must be a bulk string and becomes the message, and any
    * further arguments are ignored.
    */
  function WithArgs(args: seq<RespType>): (r: Result<Ping, CommandError>)
    ensures r.Ok? <==> |args| == 0 || args[0].BulkString?
    ensures r.Ok? && |args| == 0 ==> r.value.message == None
    ensures r.Ok? && |args| > 0 ==> r.value.message == Some(args[0].s)
    ensures r.Err? ==> r.error == CommandErrors.Other("Invalid message")
  {
    if |args| == 0 then Ok(Ping(None))
    else match args[0]
      case BulkString(s) => Ok(Ping(Some(s)))
      case _ => Err(CommandErrors.Other("Invalid message"))
  }

  /** `apply`: PONG as a simple string, or the message echoed as a bulk string. */
  function Apply(p: Ping): (reply: RespType)
    ensures p.message.None? <==> reply == SimpleString("PONG")
    ensures p.message.Some? ==> reply == BulkString(p.message.value)
  {
    match p.message
    case None => SimpleString("PONG")
    case Some(m) => BulkString(m)
  }

  /** The argument texts a client sends for `p`. */
  function Words(p: Ping): seq<string>
  {
    match p.message
    case None => []
    case Some(m) => [m]
  }

  /** Parsing the arguments sent for `p`, followed by anything once there is a message, gives `p` back. */
  lemma WithArgsWords(p: Ping, extra: seq<RespType>)
    requires p.message.None? ==> extra == []
    ensures WithArgs(BulkStrings(Words(p)) + extra) == Ok(p)
  {
    if p.message.Some? {
      assert (BulkStrings(Words(p)) + extra)[0] == BulkString(p.message.value);
    } else {
      assert BulkStrings(Words(p)) + extra == [];
    }
  }

  /** A PING carrying a message answers with exactly that message, whatever follows it. */
  lemma EchoesMessage(m: string, extra: seq<RespType>)
    ensures var r := WithArgs([BulkString(m)] + extra);
      r.Ok? && Apply(r.value) == BulkString(m)
  {
    assert ([BulkString(m)] + extra)[0] == BulkString(m);
  }
}
