/**
 * JSON configuration of source/configjson.cpp and source/configjson.h.
 * Parsed JSON text is an input of this model (the nlohmann parser is not
 * modelled); objects keep their members in iteration order.
 */
module ConfigJson {
  import opened Wrappers

  datatype Json =
    | JNull
    | JBool(b: bool)
    | JInt(i: int)          // number_integer
    | JUnsigned(n: nat)     // number_unsigned
    | JFloat(f: real)       // number_float
    | JString(s: string)
    | JArray(elems: seq<Json>)
    | JObject(members: seq<Member>)

  datatype Member = Member(key: string, value: Json)

  /** basic_json::type_name: every kind of number is "number". */
  function TypeName(j: Json): string
  {
    match j
    case JNull => "null"
    case JBool(_) => "boolean"
    case JInt(_) => "number"
    case JUnsigned(_) => "number"
    case JFloat(_) => "number"
    case JString(_) => "string"
    case JArray(_) => "array"
    case JObject(_) => "object"
  }

  predicate IsNumber(j: Json)
  {
    j.JInt? || j.JUnsigned? || j.JFloat?
  }

  /** basic_json::empty: null, an empty array and an empty object are empty. */
  predicate Empty(j: Json)
  {
    match j
    case JNull => true
    case JArray(es) => |es| == 0
    case JObject(ms) => |ms| == 0
    case _ => false
  }

  /** basic_json::clear: the empty value of the same type. */
  function Clear(j: Json): (r: Json)
    ensures TypeName(r) == TypeName(j)
  {
    match j
    case JNull => JNull
    case JBool(_) => JBool(false)
    case JInt(_) => JInt(0)
    case JUnsigned(_) => JUnsigned(0)
    case JFloat(_) => JFloat(0.0)
    case JString(_) => JString("")
    case JArray(_) => JArray([])
    case JObject(_) => JObject([])
  }

  /** The value of the first member named key. */
  function Find(ms: seq<Member>, key: string): (r: Option<Json>)
    ensures r.Some? <==> exists i :: 0 <= i < |ms| && ms[i].key == key
  {
    if |ms| == 0 then None
    else if ms[0].key == key then Some(ms[0].value)
    else Find(ms[1..], key)
  }

  /** basic_json::find: only an object has members; on anything else it finds nothing. */
  function FindKey(j: Json, key: string): Option<Json>
  {
    if j.JObject? then Find(j.members, key) else None
  }

  /** Looking up in a concatenation looks in the first part, then in the second. */
  lemma {:induction false} FindConcat(a: seq<Member>, b: seq<Member>, key: string)
    ensures Find(a + b, key) == if Find(a, key).Some? then Find(a, key) else Find(b, key)
  {
    if |a| == 0 {
      assert a + b == b;
    } else {
      assert (a + b)[0] == a[0] && (a + b)[1..] == a[1..] + b;
      FindConcat(a[1..], b, key);
    }
  }

  /** The members of an object; anything else has none. */
  function Members(j: Json): seq<Member>
  {
    if j.JObject? then j.members else []
  }

  /**
   * jsonCompareKey, as its loops run: for each member of base in turn, find
   * the first member of cmp with that key; fail if there is none or its
   * type name differs, recurse into object values, and go on to the next.
   */
  predicate CompareKey(base: seq<Member>, cmp: seq<Member>)
    ensures CompareKey(base, cmp) ==> forall i :: 0 <= i < |base| ==>
      Find(cmp, base[i].key).Some? && TypeName(base[i].value) == TypeName(Find(cmp, base[i].key).value)
    decreases base
  {
    if |base| == 0 then true
    else
      var it := base[0];
      match Find(cmp, it.key)
      case None => false
      case Some(c) =>
        if TypeName(it.value) != TypeName(c) then false
        else if it.value.JObject? && !CompareKey(it.value.members, Members(c)) then false
        else CompareKey(base[1..], cmp)
  }

  /**
   * What jsonCompareKey checks, stated declaratively: every key of base is
   * present in cmp with the same type name, and object values conform
   * recursively.
   */
  ghost predicate Conforms(base: seq<Member>, cmp: seq<Member>)
    decreases base
  {
    forall i | 0 <= i < |base| ::
      var c := Find(cmp, base[i].key);
      && c.Some?
      && TypeName(base[i].value) == TypeName(c.value)
      && (base[i].value.JObject? ==> Conforms(base[i].value.members, Members(c.value)))
  }

  /** The loop-shaped check and the declarative statement agree, both ways. */
  lemma {:induction false} CompareKeyConforms(base: seq<Member>, cmp: seq<Member>)
    ensures CompareKey(base, cmp) <==> Conforms(base, cmp)
    decreases base
  {
    if |base| > 0 {
      var it := base[0];
      CompareKeyConforms(base[1..], cmp);
      if it.value.JObject? && Find(cmp, it.key).Some? {
        CompareKeyConforms(it.value.members, Members(Find(cmp, it.key).value));
      }
      assert Conforms(base, cmp) <==> (
        var c := Find(cmp, it.key);
        && c.Some? && TypeName(it.value) == TypeName(c.value)
        && (it.value.JObject? ==> Conforms(it.value.members, Members(c.value)))
        && Conforms(base[1..], cmp))
      by {
        forall i | 1 <= i < |base| ensures base[i] == base[1..][i - 1] { }
      }
    }
  }

  /** Keys of cmp that base does not mention never make the check fail. */
  lemma {:induction false} CompareKeyExtraKeys(base: seq<Member>, cmp: seq<Member>, extra: seq<Member>)
    requires CompareKey(base, cmp)
    ensures CompareKey(base, cmp + extra)
    decreases base
  {
    if |base| > 0 {
      var it := base[0];
      FindConcat(cmp, extra, it.key);
      var c := Find(cmp, it.key).value;
      if it.value.JObject? {
        assert CompareKey(it.value.members, Members(c));
      }
      CompareKeyExtraKeys(base[1..], cmp, extra);
    }
  }

  /** Keys are unique at every level, as in a parsed JSON object. */
  ghost predicate UniqueKeys(ms: seq<Member>)
    decreases ms
  {
    && (forall i, j :: 0 <= i < j < |ms| ==> ms[i].key != ms[j].key)
    && (forall i :: 0 <= i < |ms| && ms[i].value.JObject? ==> UniqueKeys(ms[i].value.members))
  }

  /** A file identical to the defaults passes the check. */
  lemma {:induction false} CompareKeyReflexive(ms: seq<Member>)
    requires UniqueKeys(ms)
    ensures CompareKey(ms, ms)
    decreases ms
  {
    forall i | 0 <= i < |ms| ensures Find(ms, ms[i].key) == Some(ms[i].value) {
      FindUnique(ms, i);
    }
    forall i | 0 <= i < |ms| && ms[i].value.JObject?
      ensures CompareKey(ms[i].value.members, ms[i].value.members)
    {
      CompareKeyReflexive(ms[i].value.members);
    }
    CompareKeySuffix(ms, ms, 0);
  }

  lemma {:induction false} FindUnique(ms: seq<Member>, i: nat)
    requires i < |ms|
    requires forall k, j :: 0 <= k < j < |ms| ==> ms[k].key != ms[j].key
    ensures Find(ms, ms[i].key) == Some(ms[i].value)
  {
    if i > 0 {
      FindUnique(ms[1..], i - 1);
    }
  }

  /** Every suffix of base passes when each of its members finds itself in cmp. */
  lemma {:induction false} CompareKeySuffix(base: seq<Member>, cmp: seq<Member>, from: nat)
    requires from <= |base|
    requires forall i | from <= i < |base| :: Find(cmp, base[i].key) == Some(base[i].value)
    requires forall i | from <= i < |base| && base[i].value.JObject? ::
      CompareKey(base[i].value.members, base[i].value.members)
    ensures CompareKey(base[from..], cmp)
    decreases |base| - from
  {
    if from < |base| {
      CompareKeySuffix(base, cmp, from + 1);
      assert base[from..][1..] == base[from + 1..];
    }
  }

  /**
   * The result of a get<T>() conversion or an at() access: a value, a thrown
   * type_error, or a thrown out_of_range.
   */
  datatype Got<T> = Got(value: T) | TypeError | OutOfRange

  /** get<std::string>(): only a string converts. */
  function AsString(j: Json): Got<string>
  {
    if j.JString? then Got(j.s) else TypeError
  }

  /** get<bool>(): only a boolean converts. */
  function AsBool(j: Json): Got<bool>
  {
    if j.JBool? then Got(j.b) else TypeError
  }

  /** static_cast of a double to an integer: truncation toward zero. */
  function Truncate(r: real): int
  {
    if r >= 0.0 then r.Floor else -((-r).Floor)
  }

  /**
   * get<T>() for an arithmetic T: numbers and booleans convert, anything else
   * throws. The value is the one before narrowing to the width of T.
   */
  function AsNumber(j: Json): Got<int>
  {
    match j
    case JInt(i) => Got(i)
    case JUnsigned(n) => Got(n)
    case JFloat(f) => Got(Truncate(f))
    case JBool(b) => Got(if b then 1 else 0)
    case _ => TypeError
  }

  /**
   * ConfigJson: a Json value (*this) that carries the configuration it
   * replaced as its defaults.
   */
  class ConfigJson {
    var json: Json
    var defaultConfig: Json

    /** Built from an initialiser list; m_defaultConfig starts as null. */
    constructor (initial: Json)
      ensures json == initial && defaultConfig == JNull
    {
      json, defaultConfig := initial, JNull;
    }

    /**
     * getConfig<T>: the loaded value converted with get, else the default
     * converted with get, else T() (zero). It is one lookup in the members of
     * the loaded configuration followed by those of the defaults, so a loaded
     * key shadows its default.
     */
    function GetConfig<T>(key: string, get: Json -> T, zero: T): (r: T)
      reads this
      ensures r ==
        match Find(Members(json) + Members(defaultConfig), key)
        case Some(v) => get(v)
        case None => zero
    {
      FindConcat(Members(json), Members(defaultConfig), key);
      match FindKey(json, key)
      case Some(v) => get(v)
      case None =>
        match FindKey(defaultConfig, key)
        case Some(d) => get(d)
        case None => zero
    }

    /** getTable: the value getConfig<Json> finds, or null. */
    function GetTable(key: string): (r: Json)
      reads this
      ensures r == GetConfig(key, (j: Json) => j, JNull)
    {
      match FindKey(json, key)
      case Some(v) => v
      case None =>
        match FindKey(defaultConfig, key)
        case Some(d) => d
        case None => JNull
    }

    /**
     * getValue<T>(i): at(i), then T() for a null element and the conversion
     * for any other. at() throws type_error on anything but an array and
     * out_of_range past its end.
     */
    function GetValue<T>(i: nat, get: Json -> T, zero: T): (r: Got<T>)
      reads this
      ensures !json.JArray? ==> r == TypeError
      ensures json.JArray? && i >= |json.elems| ==> r == OutOfRange
      ensures json.JArray? && i < |json.elems| && json.elems[i] == JNull ==> r == Got(zero)
      ensures json.JArray? && i < |json.elems| && json.elems[i] != JNull ==> r == Got(get(json.elems[i]))
    {
      if !json.JArray? then TypeError
      else if i >= |json.elems| then OutOfRange
      else
        var element := json.elems[i];
        if element.JNull? then Got(zero) else Got(get(element))
    }

    /**
     * getValue<Json> is at() itself: a null element comes back as null, so
     * every element in range comes back unchanged.
     */
    lemma GetValueIsAt(i: nat)
      ensures json.JArray? && i < |json.elems| ==> GetValue(i, (j: Json) => j, JNull) == Got(json.elems[i])
      ensures !(json.JArray? && i < |json.elems|) ==> !GetValue(i, (j: Json) => j, JNull).Got?
    {
    }

    /**
     * loadFile with the already-parsed file content (None: the file is
     * missing). The previous content becomes the defaults and the parsed
     * file the content; a non-object parse fails; a key or type mismatch
     * against non-empty defaults is only logged (mismatchLogged). When the
     * defaults are neither empty nor an object, jsonCompareKey asks key() of a
     * non-object iterator as soon as the file has a member, and the
     * invalid_iterator exception leaves loadFile (threw).
     */
    method LoadFile(file: Option<Json>) returns (ok: bool, mismatchLogged: bool, threw: bool)
      modifies this
      ensures file.None? ==> !ok && !mismatchLogged && !threw && json == old(json) && defaultConfig == old(defaultConfig)
      ensures file.Some? ==> json == file.value && defaultConfig == old(json)
      ensures threw <==> file.Some? && json.JObject? && |json.members| > 0 && !Empty(defaultConfig) && !defaultConfig.JObject?
      ensures file.Some? ==> ok == (json.JObject? && !threw)
      ensures mismatchLogged <==>
        ok && !Empty(defaultConfig) && !CompareKey(json.members, Members(defaultConfig))
    {
      if file.None? {
        return false, false, false;
      }
      defaultConfig := json;
      json := file.value;
      if !json.JObject? {
        return false, false, false;
      }
      if Empty(defaultConfig) {
        return true, false, false;
      }
      if !defaultConfig.JObject? && |json.members| > 0 {
        return false, false, true;
      }
      mismatchLogged := !CompareKey(json.members, Members(defaultConfig));
      ok, threw := true, false;
    }
  }
}
