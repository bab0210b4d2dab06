/**
  * Turning a decoded frame into a command and running it against the
  * store (src/command/mod.rs).
  */
module Commands {
  import opened Wrappers
  import opened IntText
  import opened RespTypes
  import opened CommandErrors
  import opened Storage
  import opened Db
  import PingCommand
  import GetCommand
  import SetCommand
  import PushCommand
  import LRangeCommand
  import RespFrame
  import Utf8

  datatype Command =
    | Ping(ping: PingCommand.Ping)
    | Set(assign: SetCommand.Set)
    | Get(lookup: GetCommand.Get)
    | LPush(lpush: PushCommand.Push)
    | RPush(rpush: PushCommand.Push)
    | LRange(range: LRangeCommand.LRange)

  // -----------------------------------------------------------------------
  // Command names

  /** ASCII upper-case letters. */
  predicate IsUpper(c: char)
  {
    'A' <= c <= 'Z'
  }

  /** ASCII lower-casing of one character. */
  function LowerChar(c: char): char
  {
    if IsUpper(c) then (c as int + 32) as char else c
  }

  /**
    * The name lower-cased for matching. Only ASCII letters are lowered:
    * the names matched against are ASCII, and no other character lowers
    * to a string of their letters, so the match is decided the same way.
    */
  function ToLower(s: string): (t: string)
    ensures |t| == |s|
    ensures forall i | 0 <= i < |t| :: !IsUpper(t[i])
    ensures forall i | 0 <= i < |s| ::
      if IsUpper(s[i]) then t[i] as int == s[i] as int + 32 else t[i] == s[i]
  {
    seq(|s|, i requires 0 <= i < |s| => LowerChar(s[i]))
  }

  /** Two characters that are equal once ASCII case is ignored. */
  predicate SameUpToCase(c: char, d: char)
  {
    || c == d
    || (IsUpper(c) && d as int == c as int + 32)
    || (IsUpper(d) && c as int == d as int + 32)
  }

  /** Two names lower to the same string exactly when they differ only in ASCII case. */
  lemma ToLowerEqualIff(s: string, u: string)
    ensures ToLower(s) == ToLower(u) <==>
      |s| == |u| && forall i | 0 <= i < |s| :: SameUpToCase(s[i], u[i])
  {
  }

  /** The name a command is dispatched on. */
  function Name(c: Command): string
  {
    match c
    case Ping(_) => "ping"
    case Set(_) => "set"
    case Get(_) => "get"
    case LPush(_) => "lpush"
    case RPush(_) => "rpush"
    case LRange(_) => "lrange"
  }

  predicate IsCommandName(name: string)
  {
    name in {"ping", "set", "get", "lpush", "rpush", "lrange"}
  }

  // -----------------------------------------------------------------------
  // From a frame to a command

  /**
    * `from_resp_command_frame`: the first element, which must be a bulk
    * string, names the command, matched without regard to ASCII case; the
    * remaining elements go to that command's `with_args`, whose error is
    * returned unchanged. An unknown name is reported as written. The
    * frame must not be empty (the source panics on an empty one).
    */
  function FromRespCommandFrame(frame: seq<RespType>): (r: Result<Command, CommandError>)
    requires |frame| > 0
    ensures !frame[0].BulkString? ==> r == Err(InvalidFormat)
    ensures frame[0].BulkString? && !IsCommandName(ToLower(frame[0].s)) ==> r == Err(UnknownCommand(frame[0].s))
    ensures r.Ok? ==> frame[0].BulkString? && Name(r.value) == ToLower(frame[0].s)
  {
    match frame[0]
    case BulkString(name) => Dispatch(name, ToLower(name), frame[1..])
    case _ => Err(InvalidFormat)
  }

  /** The dispatch on `lower`, the lower-cased `name`, of a frame whose first element is the bulk string `name`. */
  function Dispatch(name: string, lower: string, args: seq<RespType>): (r: Result<Command, CommandError>)
    ensures !IsCommandName(lower) ==> r == Err(UnknownCommand(name))
    ensures r.Ok? ==> Name(r.value) == lower
  {
    if lower == "ping" then
      match PingCommand.WithArgs(args)
      case Ok(c) => Ok(Ping(c))
      case Err(e) => Err(e)
    else if lower == "set" then
      match SetCommand.WithArgs(args)
      case Ok(c) => Ok(Set(c))
      case Err(e) => Err(e)
    else if lower == "get" then
      match GetCommand.WithArgs(args)
      case Ok(c) => Ok(Get(c))
      case Err(e) => Err(e)
    else if lower == "lpush" then
      match PushCommand.ParseArgs("LPUSH", args)
      case Ok(c) => Ok(LPush(c))
      case Err(e) => Err(e)
    else if lower == "rpush" then
      match PushCommand.ParseArgs("RPUSH", args)
      case Ok(c) => Ok(RPush(c))
      case Err(e) => Err(e)
    else if lower == "lrange" then
      match LRangeCommand.WithArgs(args)
      case Ok(c) => Ok(LRange(c))
      case Err(e) => Err(e)
    else Err(UnknownCommand(name))
  }

  /** `r` is the outcome `w` of a `with_args`, its command wrapped by `wrap`, its error unchanged. */
  predicate Delegates<T>(r: Result<Command, CommandError>, w: Result<T, CommandError>, wrap: T -> Command)
  {
    && (r.Ok? <==> w.Ok?)
    && (w.Ok? ==> r.value == wrap(w.value))
    && (w.Err? ==> r.error == w.error)
  }

  /** For each known name, the outcome is that of the command's `with_args` on the remaining elements. */
  lemma DispatchDelegates(name: string, args: seq<RespType>)
    ensures var r := FromRespCommandFrame([BulkString(name)] + args);
      && (ToLower(name) == "ping" ==> Delegates(r, PingCommand.WithArgs(args), c => Ping(c)))
      && (ToLower(name) == "set" ==> Delegates(r, SetCommand.WithArgs(args), c => Set(c)))
      && (ToLower(name) == "get" ==> Delegates(r, GetCommand.WithArgs(args), c => Get(c)))
      && (ToLower(name) == "lpush" ==> Delegates(r, PushCommand.ParseArgs("LPUSH", args), c => LPush(c)))
      && (ToLower(name) == "rpush" ==> Delegates(r, PushCommand.ParseArgs("RPUSH", args), c => RPush(c)))
      && (ToLower(name) == "lrange" ==> Delegates(r, LRangeCommand.WithArgs(args), c => LRange(c)))
  {
    assert ([BulkString(name)] + args)[1..] == args;
  }

  /** Two spellings of a known name that differ only in ASCII case give the same command. */
  lemma DispatchIgnoresCase(name: string, name': string, args: seq<RespType>)
    requires ToLower(name) == ToLower(name') && IsCommandName(ToLower(name))
    ensures FromRespCommandFrame([BulkString(name)] + args) == FromRespCommandFrame([BulkString(name')] + args)
  {
    assert ([BulkString(name)] + args)[1..] == args;
    assert ([BulkString(name')] + args)[1..] == args;
  }

  // -----------------------------------------------------------------------
  // The frame a client sends

  /** The texts a client sends for `c`: the upper-case name, then the arguments. */
  function Words(c: Command): seq<string>
  {
    match c
    case Ping(p) => ["PING"] + PingCommand.Words(p)
    case Set(x) => ["SET"] + SetCommand.Words(x)
    case Get(g) => ["GET"] + GetCommand.Words(g)
    case LPush(x) => ["LPUSH"] + PushCommand.Words(x)
    case RPush(x) => ["RPUSH"] + PushCommand.Words(x)
    case LRange(x) => ["LRANGE"] + LRangeCommand.Words(x)
  }

  /** A command that can be the result of parsing: a push carries at least one value. */
  predicate WellFormed(c: Command)
  {
    match c
    case LPush(x) => |x.values| >= 1
    case RPush(x) => |x.values| >= 1
    case _ => true
  }

  /** The frame of bulk strings a client sends for any well-formed command is parsed back into that command. */
  lemma FromFrameOfWords(c: Command)
    requires WellFormed(c)
    ensures |Words(c)| > 0
    ensures FromRespCommandFrame(BulkStrings(Words(c))) == Ok(c)
  {
    match c {
      case Ping(p) => PingFrame(p);
      case Set(x) => SetFrame(x);
      case Get(g) => GetFrame(g);
      case LPush(x) => PushFrame("LPUSH", x);
      case RPush(x) => PushFrame("RPUSH", x);
      case LRange(x) => LRangeFrame(x);
    }
  }

  /**
    * End to end: the bytes a client sends for a well-formed command, followed
    * by anything, decode to its frame with the rest left in the buffer, and
    * that frame is parsed back into the command.
    */
  lemma CommandFromBytes(c: Command, rest: seq<Utf8.Byte>)
    requires WellFormed(c) && |Words(c)| <= USIZE_MAX && RespFrame.Sendable(Words(c))
    ensures RespFrame.DecodeSpec(None, RespFrame.CommandBytes(Words(c)) + rest)
            == RespFrame.Step(Ok(Some(BulkStrings(Words(c)))), None, rest)
    ensures |Words(c)| > 0 && FromRespCommandFrame(BulkStrings(Words(c))) == Ok(c)
  {
    FromFrameOfWords(c);
    RespFrame.DecodeCommandBytes(Words(c), rest);
  }

  /** The frame of `name` followed by the texts `ws`, as bulk strings: the name's bulk string, then theirs. */
  lemma NamedFrame(name: string, ws: seq<string>)
    ensures BulkStrings([name] + ws) == [BulkString(name)] + BulkStrings(ws)
    ensures BulkStrings([name] + ws)[0] == BulkString(name)
    ensures BulkStrings([name] + ws)[1..] == BulkStrings(ws)
  {
    BulkStringsConcat([name], ws);
  }

  /** A frame of bulk strings is dispatched on its first text, lower-cased, with the others as arguments. */
  lemma FrameDispatch(name: string, ws: seq<string>)
    ensures FromRespCommandFrame(BulkStrings([name] + ws)) == Dispatch(name, ToLower(name), BulkStrings(ws))
  {
    NamedFrame(name, ws);
  }

  /** The upper-case names a client sends lower to the names dispatched on. */
  lemma LowerNames()
    ensures ToLower("PING") == "ping" && ToLower("SET") == "set" && ToLower("GET") == "get"
    ensures ToLower("LPUSH") == "lpush" && ToLower("RPUSH") == "rpush" && ToLower("LRANGE") == "lrange"
  {
  }

  lemma PingFrame(p: PingCommand.Ping)
    ensures FromRespCommandFrame(BulkStrings(Words(Ping(p)))) == Ok(Ping(p))
  {
    FrameDispatch("PING", PingCommand.Words(p));
    PingCommand.WithArgsWords(p, []);
    assert BulkStrings(PingCommand.Words(p)) + [] == BulkStrings(PingCommand.Words(p));
    LowerNames();
  }

  lemma SetFrame(x: SetCommand.Set)
    ensures FromRespCommandFrame(BulkStrings(Words(Set(x)))) == Ok(Set(x))
  {
    FrameDispatch("SET", SetCommand.Words(x));
    SetCommand.WithArgsWords(x, []);
    assert BulkStrings(SetCommand.Words(x)) + [] == BulkStrings(SetCommand.Words(x));
    LowerNames();
  }

  lemma GetFrame(g: GetCommand.Get)
    ensures FromRespCommandFrame(BulkStrings(Words(Get(g)))) == Ok(Get(g))
  {
    FrameDispatch("GET", GetCommand.Words(g));
    GetCommand.WithArgsWords(g, []);
    assert BulkStrings(GetCommand.Words(g)) + [] == BulkStrings(GetCommand.Words(g));
    LowerNames();
  }

  lemma PushFrame(name: string, x: PushCommand.Push)
    requires name in {"LPUSH", "RPUSH"} && |x.values| >= 1
    ensures var c := if name == "LPUSH" then LPush(x) else RPush(x);
      FromRespCommandFrame(BulkStrings(Words(c))) == Ok(c)
  {
    NamedFrame(name, PushCommand.Words(x));
    PushCommand.ParseBuiltCommand(name, x);
    LowerNames();
  }

  lemma LRangeFrame(x: LRangeCommand.LRange)
    ensures FromRespCommandFrame(BulkStrings(Words(LRange(x)))) == Ok(LRange(x))
  {
    var ws := LRangeCommand.Words(x);
    FrameDispatch("LRANGE", ws);
    LowerNames();
    LRangeCommand.WithArgsWords(x, []);
    assert BulkStrings(ws) + [] == BulkStrings(ws);
  }

  // -----------------------------------------------------------------------
  // Running a command

  /**
    * The store's list operations. The commands call them, but the store in
    * this repository does not define them, so they are given here as
    * functions of the store's contents: a push returns its outcome and the
    * new contents, a range query only reads.
    */
  datatype ListStore = ListStore(
    lpush: (map<string, Entry>, string, seq<string>) -> (Result<Usize, DBError>, map<string, Entry>),
    rpush: (map<string, Entry>, string, seq<string>) -> (Result<Usize, DBError>, map<string, Entry>),
    lrange: (map<string, Entry>, string, I64, I64) -> Result<seq<string>, DBError>)

  /**
    * `execute`: each command's `apply`. PING and GET and LRANGE leave the
    * store as it was; SET stores or reports WRONGTYPE; the pushes install
    * what the list operation returned.
    */
  method Execute(cmd: Command, db: DB, lists: ListStore) returns (reply: RespType)
    modifies db
    ensures cmd.Ping? ==> reply == PingCommand.Apply(cmd.ping) && db.data == old(db.data)
    ensures cmd.Get? ==> reply == GetCommand.Reply(Lookup(old(db.data), cmd.lookup.key)) && db.data == old(db.data)
    ensures cmd.Set? && HoldsOtherType(old(db.data), cmd.assign.key)
            ==> reply == SimpleError(WRONGTYPE_MSG) && db.data == old(db.data)
    ensures cmd.Set? && !HoldsOtherType(old(db.data), cmd.assign.key)
            ==> reply == BulkString("OK") && db.data == old(db.data)[cmd.assign.key := Entry(String(cmd.assign.value))]
    ensures cmd.LPush? ==> var (out, data) := lists.lpush(old(db.data), cmd.lpush.key, cmd.lpush.values);
              reply == PushCommand.Apply(out) && db.data == data
    ensures cmd.RPush? ==> var (out, data) := lists.rpush(old(db.data), cmd.rpush.key, cmd.rpush.values);
              reply == PushCommand.Apply(out) && db.data == data
    ensures cmd.LRange? ==> && reply == LRangeCommand.Apply(lists.lrange(old(db.data), cmd.range.key, cmd.range.start, cmd.range.end))
                            && db.data == old(db.data)
  {
    match cmd {
      case Ping(p) =>
        reply := PingCommand.Apply(p);
      case Set(x) =>
        reply := SetCommand.Apply(x, db);
      case Get(g) =>
        reply := GetCommand.Apply(g, db);
      case LPush(x) =>
        var (out, data) := lists.lpush(db.data, x.key, x.values);
        db.data := data;
        reply := PushCommand.Apply(out);
      case RPush(x) =>
        var (out, data) := lists.rpush(db.data, x.key, x.values);
        db.data := data;
        reply := PushCommand.Apply(out);
      case LRange(x) =>
        reply := LRangeCommand.Apply(lists.lrange(db.data, x.key, x.start, x.end));
    }
  }

  /**
    * A SET followed by a GET of the same key answers with the value just
    * set, whatever the store held, unless the key held a list.
    */
  method SetThenGet(db: DB, lists: ListStore, key: string, value: string) returns (setReply: RespType, getReply: RespType)
    modifies db
    ensures !HoldsOtherType(old(db.data), key) ==> setReply == BulkString("OK") && getReply == BulkString(value)
    ensures HoldsOtherType(old(db.data), key) ==> setReply == SimpleError(WRONGTYPE_MSG) && getReply == SimpleError(WRONGTYPE_MSG)
  {
    setReply := Execute(Set(SetCommand.Set(key, value)), db, lists);
    if !HoldsOtherType(old(db.data), key) {
      LookupAfterStore(old(db.data), key, value);
    }
    getReply := Execute(Get(GetCommand.Get(key)), db, lists);
  }
}
