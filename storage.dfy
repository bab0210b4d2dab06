/** The errors of the store (src/storage/mod.rs). */
module Storage {

  /** The text of a type mismatch, as Redis words it. */
  const WRONGTYPE_MSG: string := "WRONGTYPE Operation against a key holding the wrong kind of value"

  datatype DBError =
    | WrongType
    | Other(msg: string)
  {
    /** `Display`: the fixed WRONGTYPE text, or the carried message. */
    function ToString(): (text: string)
      ensures WrongType? ==> text == WRONGTYPE_MSG
      ensures Other? ==> text == msg
    {
      match this
      case WrongType => WRONGTYPE_MSG
      case Other(m) => m
    }
  }
}

/**
  * The key space (src/storage/db.rs): a map from keys to typed entries,
  * read by `get` and written by `set` after a type check.
  */
module Db {
  import opened Wrappers
  import opened Storage

  /** The typed value held at a key: a string, or a list of strings. */
  datatype Value = String(s: string) | List(items: seq<string>)

  /** `Entry::new(value)` is this constructor. */
  datatype Entry = Entry(value: Value)

  /** The key holds something other than a string. */
  predicate HoldsOtherType(data: map<string, Entry>, k: string)
  {
    k in data && !data[k].value.String?
  }

  /** What `get` answers for `k` in the key space `data`. */
  function Lookup(data: map<string, Entry>, k: string): (r: Result<Option<string>, DBError>)
    ensures r == Ok(None) <==> k !in data
    ensures r.Err? <==> HoldsOtherType(data, k)
    ensures r.Err? ==> r.error == WrongType
    ensures r.Ok? && r.value.Some? <==> k in data && data[k].value.String?
    ensures r.Ok? && r.value.Some? ==> data[k].value == String(r.value.value)
  {
    if k !in data then Ok(None)
    else match data[k].value
      case String(s) => Ok(Some(s))
      case List(_) => Err(WrongType)
  }

  class DB {
    var data: map<string, Entry>

    /** `DB::new`: an empty key space. */
    constructor()
      ensures data == map[]
    {
      data := map[];
    }

    /** `get`: looks `k` up and changes nothing. */
    method Get(k: string) returns (r: Result<Option<string>, DBError>)
      ensures r == Lookup(data, k)
    {
      if k !in data {
        return Ok(None);
      }
      var entry := data[k];
      match entry.value {
        case String(s) => r := Ok(Some(s));
        case List(_) => r := Err(WrongType);
      }
    }

    /**
      * `set`: refuses with WrongType, changing nothing, when `k` holds a
      * value that is not a string; otherwise stores `v` at `k`, whatever
      * was there, and leaves every other key as it was.
      */
    method Set(k: string, v: Value) returns (r: Result<(), DBError>)
      modifies this
      ensures HoldsOtherType(old(data), k) ==> r == Err(WrongType) && data == old(data)
      ensures !HoldsOtherType(old(data), k) ==> r == Ok(()) && data == old(data)[k := Entry(v)]
    {
      if k in data {
        match data[k].value {
          case String(_) =>
          case List(_) => return Err(WrongType);
        }
      }
      data := data[k := Entry(v)];
      return Ok(());
    }
  }

  /** A string just stored is what a later lookup of its key returns. */
  lemma LookupAfterStore(data: map<string, Entry>, k: string, s: string)
    ensures Lookup(data[k := Entry(String(s))], k) == Ok(Some(s))
  {
  }

  /** Storing at one key does not change what any other key looks up to. */
  lemma LookupOtherKey(data: map<string, Entry>, k: string, e: Entry, k': string)
    requires k' != k
    ensures Lookup(data[k := e], k') == Lookup(data, k')
  {
  }
}
