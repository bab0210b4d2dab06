/**
  * LPUSH and RPUSH (src/command/lpush.rs, src/command/rpush.rs). The two
  * files are the same code apart from the command name in the arity
  * message and in `build_command`, so `name` is a parameter here
  * ("LPUSH" or "RPUSH").
  */
module PushCommand {
  import opened Wrappers
  import opened IntText
  import opened RespTypes
  import opened CommandErrors
  import opened Storage

  datatype Push = Push(key: string, values: seq<string>)

  /** Every argument is a bulk string. */
  predicate AllBulk(args: seq<RespType>)
  {
    forall i | 0 <= i < |args| :: args[i].BulkString?
  }

  /** The texts of arguments that are all bulk strings. */
  function Texts(args: seq<RespType>): (ts: seq<string>)
    requires AllBulk(args)
    ensures |ts| == |args|
    ensures forall i | 0 <= i < |args| :: ts[i] == args[i].s
    ensures BulkStrings(ts) == args
  {
    if args == [] then [] else [args[0].s] + Texts(args[1..])
  }

  /**
    * What `with_args` returns: at least two arguments, the first a bulk
    * string naming the key, and every other one a bulk string whose text
    * is a value, in order. The arity is checked first, then the key, then
    * the values.
    */
  function ParseArgs(name: string, args: seq<RespType>): (r: Result<Push, CommandError>)
    ensures r.Ok? <==> |args| >= 2 && AllBulk(args)
    ensures r.Ok? ==> r.value.key == args[0].s && BulkStrings(r.value.values) == args[1..]
    ensures r.Ok? ==> |r.value.values| >= 1
  {
    if |args| < 2 then Err(CommandErrors.Other(WrongArity(name)))
    else if !args[0].BulkString? then Err(CommandErrors.Other(KEY_NOT_BULK))
    else if !AllBulk(args[1..]) then Err(CommandErrors.Other(VALUE_NOT_BULK))
    else
      assert forall i | 0 <= i < |args| :: args[i].BulkString? by {
        forall i | 0 <= i < |args| ensures args[i].BulkString? {
          if i > 0 { assert args[1..][i - 1] == args[i]; }
        }
      }
      Ok(Push(args[0].s, Texts(args[1..])))
  }

  /** The errors of ParseArgs, in the order they are checked. */
  lemma ParseArgsErrors(name: string, args: seq<RespType>)
    ensures |args| < 2 ==> ParseArgs(name, args) == Err(CommandErrors.Other(WrongArity(name)))
    ensures |args| >= 2 && !args[0].BulkString? ==> ParseArgs(name, args) == Err(CommandErrors.Other(KEY_NOT_BULK))
    ensures |args| >= 2 && args[0].BulkString? && !AllBulk(args)
            ==> ParseArgs(name, args) == Err(CommandErrors.Other(VALUE_NOT_BULK))
  {
    if |args| >= 2 && args[0].BulkString? && !AllBulk(args) {
      var i :| 0 <= i < |args| && !args[i].BulkString?;
      assert args[1..][i - 1] == args[i];
    }
  }

  /**
    * `with_args`: the key is checked, then the values are collected one
    * by one, the first argument that is not a bulk string rejecting the
    * whole command.
    */
  method WithArgs(name: string, args: seq<RespType>) returns (r: Result<Push, CommandError>)
    ensures r == ParseArgs(name, args)
  {
    if |args| < 2 {
      return Err(CommandErrors.Other(WrongArity(name)));
    }
    if !args[0].BulkString? {
      return Err(CommandErrors.Other(KEY_NOT_BULK));
    }
    var values: seq<string> := [];
    var i := 1;
    while i < |args|
      invariant 1 <= i <= |args|
      invariant AllBulk(args[1..i])
      invariant values == Texts(args[1..i])
    {
      if !args[i].BulkString? {
        assert args[1..][i - 1] == args[i];
        return Err(CommandErrors.Other(VALUE_NOT_BULK));
      }
      assert args[1..i + 1] == args[1..i] + [args[i]];
      TextsAppend(args[1..i], args[i]);
      values := values + [args[i].s];
      i := i + 1;
    }
    assert args[1..i] == args[1..];
    return Ok(Push(args[0].s, values));
  }

  /** Texts of a longer list of bulk strings. */
  lemma TextsAppend(args: seq<RespType>, a: RespType)
    requires AllBulk(args) && a.BulkString?
    ensures AllBulk(args + [a]) && Texts(args + [a]) == Texts(args) + [a.s]
  {
    assert forall i | 0 <= i < |args| :: (args + [a])[i] == args[i];
    var ts := Texts(args + [a]);
    assert |ts| == |Texts(args) + [a.s]|;
    forall i | 0 <= i < |ts| ensures ts[i] == (Texts(args) + [a.s])[i] {
      if i < |args| { assert (args + [a])[i] == args[i]; }
    }
  }

  /** The argument texts a client sends for `c`: the key, then the values. */
  function Words(c: Push): seq<string>
  {
    [c.key] + c.values
  }

  /** The array `build_command` returns: the command name, the key, then the values, all as bulk strings. */
  function CommandValue(name: string, c: Push): RespType
  {
    Array(BulkStrings([name] + Words(c)))
  }

  /** `build_command`: starts from the name and the key and appends each value in turn. */
  method BuildCommand(name: string, c: Push) returns (cmd: RespType)
    ensures cmd == CommandValue(name, c)
  {
    var args := [BulkString(name), BulkString(c.key)];
    BuiltPrefixEnds(name, c);
    var i := 0;
    while i < |c.values|
      invariant 0 <= i <= |c.values|
      invariant args == BulkStrings(BuiltPrefix(name, c, i))
    {
      BuiltPrefixStep(name, c, i);
      args := args + [BulkString(c.values[i])];
      i := i + 1;
    }
    cmd := Array(args);
  }

  /** The texts `build_command` has collected after `i` values. */
  function BuiltPrefix(name: string, c: Push, i: nat): seq<string>
    requires i <= |c.values|
  {
    [name, c.key] + c.values[..i]
  }

  /** Before any value only the name and the key are collected; after all of them, the whole command. */
  lemma BuiltPrefixEnds(name: string, c: Push)
    ensures BulkStrings(BuiltPrefix(name, c, 0)) == [BulkString(name), BulkString(c.key)]
    ensures BuiltPrefix(name, c, |c.values|) == [name] + Words(c)
  {
    assert BuiltPrefix(name, c, 0) == [name, c.key];
    assert c.values[..|c.values|] == c.values;
  }

  /** Collecting one more value appends its bulk string. */
  lemma BuiltPrefixStep(name: string, c: Push, i: nat)
    requires i < |c.values|
    ensures BulkStrings(BuiltPrefix(name, c, i + 1)) == BulkStrings(BuiltPrefix(name, c, i)) + [BulkString(c.values[i])]
  {
    assert BuiltPrefix(name, c, i + 1) == BuiltPrefix(name, c, i) + [c.values[i]];
    BulkStringsConcat(BuiltPrefix(name, c, i), [c.values[i]]);
  }

  /**
    * `with_args` on the arguments of the array `build_command` returns
    * gives the command back, for any command with at least one value (the
    * only ones `with_args` can return). Every argument after the key is a
    * value, so nothing may follow them.
    */
  lemma ParseBuiltCommand(name: string, c: Push)
    requires |c.values| >= 1
    ensures ParseArgs(name, BulkStrings(Words(c))) == Ok(c)
  {
    var args := BulkStrings(Words(c));
    BulkStringsConcat([c.key], c.values);
    assert args == [BulkString(c.key)] + BulkStrings(c.values);
    assert args[1..] == BulkStrings(c.values);
    assert AllBulk(args) by {
      forall i | 0 <= i < |args| ensures args[i].BulkString? {
        if i > 0 { assert args[i] == BulkStrings(c.values)[i - 1]; }
      }
    }
    var r := ParseArgs(name, args);
    BulkStringsInjective(r.value.values, c.values);
  }

  /** Different texts are different bulk strings. */
  lemma BulkStringsInjective(ts: seq<string>, us: seq<string>)
    requires BulkStrings(ts) == BulkStrings(us)
    ensures ts == us
  {
    assert |ts| == |us|;
    forall i | 0 <= i < |ts| ensures ts[i] == us[i] {
      assert BulkStrings(ts)[i] == BulkStrings(us)[i];
    }
  }

  /** A command `with_args` accepted is rebuilt by `build_command` into the name followed by the same arguments. */
  lemma BuildParsedCommand(name: string, args: seq<RespType>)
    requires ParseArgs(name, args).Ok?
    ensures CommandValue(name, ParseArgs(name, args).value) == Array([BulkString(name)] + args)
  {
    var c := ParseArgs(name, args).value;
    BulkStringsConcat([name], Words(c));
    BulkStringsConcat([c.key], c.values);
    assert BulkStrings([c.key]) == [args[0]];
    assert [args[0]] + args[1..] == args;
  }

  /** `len as i64`: the list length, a usize, read as a two's-complement i64. */
  function AsI64(n: Usize): (r: I64)
    ensures n <= I64_MAX ==> r == n
    ensures n > I64_MAX ==> r == n - (USIZE_MAX + 1)
  {
    if n <= I64_MAX then n else n - (USIZE_MAX + 1)
  }

  /**
    * `apply`, given what the store's push returned (the push itself is not
    * part of this model): the new length as an integer, or the store's
    * error as a simple error.
    */
  function Apply(out: Result<Usize, DBError>): (reply: RespType)
    ensures out.Ok? && out.value <= I64_MAX ==> reply == Integer(out.value)
    ensures out.Ok? && out.value > I64_MAX ==> reply == Integer(out.value - (USIZE_MAX + 1))
    ensures out.Err? ==> reply == SimpleError(out.error.ToString())
  {
    match out
    case Ok(len) => Integer(AsI64(len))
    case Err(e) => SimpleError(e.ToString())
  }
}
