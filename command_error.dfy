/** The errors of command parsing (src/command/mod.rs) and the messages the validators share. */
module CommandErrors {

  datatype CommandError =
    | InvalidFormat
    | UnknownCommand(cmd: string)
    | Other(msg: string)
  {
    /** `Display`: a fixed text, the unknown name after a fixed prefix, or the carried message. */
    function ToString(): (text: string)
      ensures InvalidFormat? ==> text == "Invalid command format"
      ensures UnknownCommand? ==> text == "Unknown command: " + cmd
      ensures Other? ==> text == msg
    {
      match this
      case InvalidFormat => "Invalid command format"
      case UnknownCommand(name) => "Unknown command: " + name
      case Other(m) => m
    }
  }

  const KEY_NOT_BULK: string := "Invalid argument. Key must be a bulk string"
  const VALUE_NOT_BULK: string := "Invalid argument. Value must be a bulk string"

  /** The arity error of the command `name` (written upper-case, as in the messages). */
  function WrongArity(name: string): string
  {
    "Wrong number of arguments specified for '" + name + "' command"
  }
}
