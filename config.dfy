/**
 * `ConfigAdapter` of `src/buvis/adapters/config/config.py`: an in-memory
 * key/value store, filled by `set_key_value` and read by `get_key_value`,
 * which answers with an adapter response (a code and a message).
 */
module Config {

  datatype Option<T> = None | Some(value: T)

  /** The Python values a configuration entry can hold, as far as their truth value goes. */
  datatype Value =
    | NoneValue
    | BoolValue(b: bool)
    | IntValue(i: int)
    | StrValue(s: string)
    | ListValue(items: seq<Value>)

  /** Python truthiness: `None`, `False`, `0`, `""` and `[]` are false. */
  predicate Truthy(v: Value) {
    match v
    case NoneValue => false
    case BoolValue(b) => b
    case IntValue(i) => i != 0
    case StrValue(s) => s != ""
    case ListValue(items) => items != []
  }

  /** The code of an adapter response: the default (success) code, or an explicit status. */
  datatype Code = Ok | Status(n: int)

  /** `AdapterResponse(code, message)` */
  datatype Response = Response(code: Code, message: Value)

  const NotFound: int := 404

  function NotFoundMessage(key: string): string {
    key + " not found in config store"
  }

  /**
   * The answer of `get_key_value(key)` over the entries `store`: the stored
   * value when it is truthy (`store.get(key, "")`), otherwise a 404 naming the key.
   */
  function Lookup(store: map<string, Value>, key: string): Response {
    var stored := if key in store then store[key] else StrValue("");
    if Truthy(stored) then Response(Ok, stored)
    else Response(Status(NotFound), StrValue(NotFoundMessage(key)))
  }

  /** A lookup succeeds exactly for a key whose stored value is truthy, and then returns that value. */
  lemma LookupSucceeds(store: map<string, Value>, key: string)
    ensures Lookup(store, key).code == Ok <==> key in store && Truthy(store[key])
    ensures Lookup(store, key).code == Ok ==> Lookup(store, key).message == store[key]
    ensures Lookup(store, key).code != Ok ==> Lookup(store, key) == Lookup(map[], key)
  {
  }

  /** In an empty store every key is reported missing, with code 404 and a message naming it. */
  lemma EmptyStoreMisses(key: string)
    ensures Lookup(map[], key) == Response(Status(404), StrValue(key + " not found in config store"))
  {
  }

  /** After storing a truthy value, looking its key up returns it. */
  lemma SetThenGet(store: map<string, Value>, key: string, value: Value)
    requires Truthy(value)
    ensures Lookup(store[key := value], key) == Response(Ok, value)
  {
  }

  /** A key stored with a falsy value is reported exactly like an absent key. */
  lemma SetFalsyMisses(store: map<string, Value>, key: string, value: Value)
    requires !Truthy(value)
    ensures Lookup(store[key := value], key) == Lookup(map[], key)
  {
  }

  /** Storing under one key does not change what any other key looks up to. */
  lemma SetLeavesOthers(store: map<string, Value>, key: string, value: Value, other: string)
    requires other != key
    ensures Lookup(store[key := value], other) == Lookup(store, other)
  {
  }

  /** `Path(p).absolute()` with `cwd` as the working directory, without normalising the parts. */
  function Absolute(p: string, cwd: string): string {
    if |p| > 0 && p[0] == '/' then p else cwd + "/" + p
  }

  class ConfigAdapter {
    /** `config_dict` */
    var configDict: map<string, Value>
    /** `path_config_file`, absent unless a file path was given. */
    var pathConfigFile: Option<string>

    /** `ConfigAdapter(file_path)`; `cwd` stands for the process's working directory. */
    constructor (filePath: string, cwd: string)
      ensures configDict == map[]
      ensures pathConfigFile == if filePath != "" then Some(Absolute(filePath, cwd)) else None
    {
      configDict := map[];
      if filePath != "" {
        pathConfigFile := Some(Absolute(filePath, cwd));
      } else {
        pathConfigFile := None;
      }
    }

    /** `set_key_value(key, value)`: stores or overwrites the entry for `key`, nothing else. */
    method SetKeyValue(key: string, value: Value)
      modifies this
      ensures configDict == old(configDict)[key := value]
      ensures pathConfigFile == old(pathConfigFile)
    {
      configDict := configDict[key := value];
    }

    /** `get_key_value(key)`: reads the store and changes nothing. */
    method GetKeyValue(key: string) returns (r: Response)
      ensures r == Lookup(configDict, key)
      ensures r.code == Ok <==> key in configDict && Truthy(configDict[key])
      ensures r.code == Ok ==> r.message == configDict[key]
      ensures r.code != Ok ==> r == Response(Status(404), StrValue(key + " not found in config store"))
    {
      r := Lookup(configDict, key);
    }
  }

  /** A fresh adapter answers every lookup with a 404, and answers with a value once it is stored. */
  method SetThenGetOnAdapter(key: string, value: Value) returns (before: Response, after: Response)
    requires Truthy(value)
    ensures before == Response(Status(404), StrValue(key + " not found in config store"))
    ensures after == Response(Ok, value)
  {
    var adapter := new ConfigAdapter("", "/");
    before := adapter.GetKeyValue(key);
    adapter.SetKeyValue(key, value);
    after := adapter.GetKeyValue(key);
  }
}
