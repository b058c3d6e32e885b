/**
 * ConfigManager of source/configmanager.h and source/configmanager.cpp: an
 * optional loaded configuration in front of the fixed DefaultJsonConfig.
 * It checks files with the same jsonCompareKey as ConfigJson.
 */
module ConfigManager {
  import opened Wrappers
  import opened ConfigJson

  /** DefaultJsonConfig, member by member (integer literals are number_integer). */
  const DefaultJsonConfig: Json := JObject([
    Member("ip", JString("127.0.0.1")),
    Member("rsa", JBool(true)),
    Member("mysqlPort", JInt(3306)),
    Member("loginPort", JInt(7171)),
    Member("gamePort", JInt(7172)),
    Member("statusPort", JInt(7171)),
    Member("bindOnlyGlobalAddress", JBool(true)),
    Member("maxPacketsPerSecond", JInt(250))
  ])

  /** Whether DefaultJsonConfig has the key. */
  predicate HasDefault(key: string)
  {
    FindKey(DefaultJsonConfig, key).Some?
  }

  /**
   * `DefaultJsonConfig[key]` on the const object. For a key it lacks the C++
   * operator is undefined, so every lookup here names one of its keys.
   */
  function Default(key: string): (r: Json)
    requires HasDefault(key)
    ensures exists i :: 0 <= i < |DefaultJsonConfig.members| && DefaultJsonConfig.members[i] == Member(key, r)
  {
    FindMember(DefaultJsonConfig.members, key);
    FindKey(DefaultJsonConfig, key).value
  }

  lemma {:induction false} FindMember(ms: seq<Member>, key: string)
    requires Find(ms, key).Some?
    ensures exists i :: 0 <= i < |ms| && ms[i] == Member(key, Find(ms, key).value)
  {
    if ms[0].key != key {
      FindMember(ms[1..], key);
      var i :| 0 <= i < |ms[1..]| && ms[1..][i] == Member(key, Find(ms, key).value);
      assert ms[i + 1] == ms[1..][i];
    }
  }

  /** The defaults hold eight distinct keys, none of them a nested object. */
  lemma DefaultKeysUnique()
    ensures |DefaultJsonConfig.members| == 8 && UniqueKeys(DefaultJsonConfig.members)
  {
    var ms := DefaultJsonConfig.members;
    forall i, j | 0 <= i < j < |ms| ensures ms[i].key != ms[j].key {
      assert |ms[i].key| != |ms[j].key| || ms[i].key[0] != ms[j].key[0];
    }
  }

  /** Two of the listed defaults: the packet-rate limit and the login port. */
  lemma DefaultContents()
    ensures HasDefault("maxPacketsPerSecond") && Default("maxPacketsPerSecond") == JInt(250)
    ensures HasDefault("loginPort") && Default("loginPort") == JInt(7171)
  {
    var ms := DefaultJsonConfig.members;
    DefaultKeysUnique();
    FindUnique(ms, 7);
    FindUnique(ms, 3);
  }

  class ConfigManager {
    /** m_json: null until a file has been loaded. */
    var json: Option<Json>

    ghost predicate Valid()
      reads this
    {
      json.Some? ==> json.value.JObject?
    }

    constructor ()
      ensures Valid() && json == None
    {
      json := None;
    }

    /**
     * load with the already-parsed config.json (None: the file is missing,
     * and m_json is left as it was). A non-object parse is discarded and
     * fails; a mismatch against DefaultJsonConfig is only logged.
     */
    method Load(file: Option<Json>) returns (ok: bool, mismatchLogged: bool)
      requires Valid()
      modifies this
      ensures Valid()
      ensures file.None? ==> !ok && !mismatchLogged && json == old(json)
      ensures file.Some? && !file.value.JObject? ==> !ok && !mismatchLogged && json == None
      ensures file.Some? && file.value.JObject? ==>
        ok && json == file && mismatchLogged == !CompareKey(file.value.members, DefaultJsonConfig.members)
    {
      if file.None? {
        return false, false;
      }
      json := file;
      if !json.value.JObject? {
        json := None;
        return false, false;
      }
      mismatchLogged := !CompareKey(json.value.members, DefaultJsonConfig.members);
      ok := true;
    }

    /** reset: nothing when not loaded; otherwise the loaded object is emptied. */
    method Reset()
      requires Valid()
      modifies this
      ensures Valid()
      ensures old(json).None? ==> json == None
      ensures old(json).Some? ==> json == Some(JObject([]))
    {
      if json.None? {
        return;
      }
      json := Some(Clear(json.value));
    }

    /** The stored value for key, if a configuration is loaded and has it. */
    function Stored(key: string): Option<Json>
      reads this
    {
      if json.None? then None else FindKey(json.value, key)
    }

    /**
     * getString: the stored value when loaded, present and a string;
     * otherwise the default converted to std::string.
     */
    function GetString(key: string): (r: Got<string>)
      reads this
      requires HasDefault(key) || (Stored(key).Some? && Stored(key).value.JString?)
      ensures Stored(key).Some? && Stored(key).value.JString? ==> r == Got(Stored(key).value.s)
      ensures !(Stored(key).Some? && Stored(key).value.JString?) ==> r == AsString(Default(key))
    {
      if json.None? then AsString(Default(key))
      else
        match FindKey(json.value, key)
        case None => AsString(Default(key))
        case Some(v) => if !v.JString? then AsString(Default(key)) else AsString(v)
    }

    /**
     * getNumber<T>: the stored value when loaded, present and a number;
     * otherwise the default converted to T.
     */
    function GetNumber(key: string): (r: Got<int>)
      reads this
      requires HasDefault(key) || (Stored(key).Some? && IsNumber(Stored(key).value))
      ensures Stored(key).Some? && IsNumber(Stored(key).value) ==> r == AsNumber(Stored(key).value)
      ensures !(Stored(key).Some? && IsNumber(Stored(key).value)) ==> r == AsNumber(Default(key))
    {
      if json.None? then AsNumber(Default(key))
      else
        match FindKey(json.value, key)
        case None => AsNumber(Default(key))
        case Some(v) => if !IsNumber(v) then AsNumber(Default(key)) else AsNumber(v)
    }

    /**
     * getBoolean as written: it tests is_string where the value is then read
     * with get<bool>, so a stored string throws and any other stored value
     * gives the default.
     */
    function GetBooleanAsWritten(key: string): (r: Got<bool>)
      reads this
      requires HasDefault(key) || (Stored(key).Some? && Stored(key).value.JString?)
      ensures Stored(key).Some? && Stored(key).value.JString? ==> r == TypeError
      ensures !(Stored(key).Some? && Stored(key).value.JString?) ==> r == AsBool(Default(key))
    {
      if json.None? then AsBool(Default(key))
      else
        match FindKey(json.value, key)
        case None => AsBool(Default(key))
        case Some(v) => if !v.JString? then AsBool(Default(key)) else AsBool(v)
    }

    /** getBoolean as evidently intended: a stored boolean shadows the default. */
    function GetBoolean(key: string): (r: Got<bool>)
      reads this
      requires HasDefault(key) || (Stored(key).Some? && Stored(key).value.JBool?)
      ensures Stored(key).Some? && Stored(key).value.JBool? ==> r == Got(Stored(key).value.b)
      ensures !(Stored(key).Some? && Stored(key).value.JBool?) ==> r == AsBool(Default(key))
    {
      if json.None? then AsBool(Default(key))
      else
        match FindKey(json.value, key)
        case None => AsBool(Default(key))
        case Some(v) => if !v.JBool? then AsBool(Default(key)) else AsBool(v)
    }
  }

  /** With "rsa": false in config.json, getBoolean("rsa") still answers true. */
  method GetBooleanCounterexample() returns (asWritten: Got<bool>, intended: Got<bool>)
    ensures asWritten == Got(true) && intended == Got(false)
  {
    var manager := new ConfigManager();
    var ok, mismatch := manager.Load(Some(JObject([Member("rsa", JBool(false))])));
    assert manager.Stored("rsa") == Some(JBool(false));
    asWritten := manager.GetBooleanAsWritten("rsa");
    intended := manager.GetBoolean("rsa");
  }
}
