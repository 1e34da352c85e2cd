/** The Redis object store: each object is a Redis hash under
    `namespace:key`, each field a text (containers as `JSON:` and their JSON
    text, `None` as `NULL`), and a Redis set under `namespace:INDEX` names
    every hash the store wrote. The Redis server is held in two fields, its
    hashes and the members of the index set; JSON encoding and decoding are
    parameters. */
module RedisStore {
  import opened Wrappers
  import Strings
  import OS = ObjectStore

  /** `RESERVED_KEYS`. */
  const Reserved: seq<string> := ["INDEX"]

  datatype Error =
    | ReservedKey(msg: string)
    /** Redis refuses a hash command with no fields. */
    | EmptyHash
    /** `json.loads` refused the text after `JSON:`. */
    | JsonError
    /** A hash command on the key of the index set (Redis `WRONGTYPE`). */
    | WrongType

  const JsonPrefix := "JSON:"
  const NullText := "NULL"

  /** The text a field is stored as: a list, tuple or dictionary as `JSON:`
      and its JSON text, `None` as `NULL`, a string as itself, and an integer
      as its decimal digits (the Redis client turns numbers into text). */
  function FieldText(v: OS.Value, dumps: OS.Value -> string): string
  {
    match v
    case List(_) => JsonPrefix + dumps(v)
    case Tuple(_) => JsonPrefix + dumps(v)
    case Dict(_) => JsonPrefix + dumps(v)
    case Null => NullText
    case Str(s) => s
    case Int(i) => Strings.IntToString(i)
  }

  /** What `_deserialize` makes of one field text. */
  function Decode(text: string, loads: string -> Option<OS.Value>): Result<OS.Value, Error>
  {
    if Strings.StartsWith(text, JsonPrefix) then
      var v := loads(text[|JsonPrefix|..]);
      if v.None? then Err(JsonError) else Ok(v.value)
    else if text == NullText then Ok(OS.Null)
    else Ok(OS.Str(text))
  }

  /** Decimal text never starts like `JSON:` or reads `NULL`. */
  lemma IntTextIsPlain(i: int)
    ensures !Strings.StartsWith(Strings.IntToString(i), JsonPrefix)
    ensures Strings.IntToString(i) != NullText
  {
    var t := Strings.IntToString(i);
    var digits := Strings.NatToString(if i < 0 then -i else i);
    assert Strings.IsDigit(digits[0]);
    assert t[0] == '-' || t[0] == digits[0];
  }

  /** Reading back a stored field: `None` and containers come back as they
      went in (containers through JSON), a string comes back as itself
      unless it reads `NULL` or starts with `JSON:`, and an integer comes
      back as the string of its digits. */
  lemma DecodeFieldText(v: OS.Value, dumps: OS.Value -> string, loads: string -> Option<OS.Value>)
    ensures v.Null? ==> Decode(FieldText(v, dumps), loads) == Ok(OS.Null)
    ensures (v.List? || v.Tuple? || v.Dict?) ==>
      Decode(FieldText(v, dumps), loads) ==
        (if loads(dumps(v)).Some? then Ok(loads(dumps(v)).value) else Err(JsonError))
    ensures v.Str? && v.s != NullText && !Strings.StartsWith(v.s, JsonPrefix) ==>
      Decode(FieldText(v, dumps), loads) == Ok(v)
    ensures v == OS.Str(NullText) ==> Decode(FieldText(v, dumps), loads) == Ok(OS.Null)
    ensures v.Int? ==> Decode(FieldText(v, dumps), loads) == Ok(OS.Str(Strings.IntToString(v.i)))
  {
    if v.List? || v.Tuple? || v.Dict? {
      var t := FieldText(v, dumps);
      assert t[..|JsonPrefix|] == JsonPrefix && t[|JsonPrefix|..] == dumps(v);
    } else if v.Int? {
      IntTextIsPlain(v.i);
    }
  }

  /** The fields `set` sends: every field of the object as its text. */
  function Serialized(obj: map<string, OS.Value>, dumps: OS.Value -> string): (r: map<string, string>)
    ensures r.Keys == obj.Keys
  {
    map k | k in obj :: FieldText(obj[k], dumps)
  }

  /** `_deserialize` of a whole hash: every field decoded, or `JsonError`
      when some field's JSON is refused. */
  function Deserialized(hsh: map<string, string>, loads: string -> Option<OS.Value>): (r: Result<map<string, OS.Value>, Error>)
    ensures r.Ok? <==> forall k :: k in hsh ==> Decode(hsh[k], loads).Ok?
    ensures r.Ok? ==> r.value.Keys == hsh.Keys && forall k :: k in hsh ==> r.value[k] == Decode(hsh[k], loads).value
  {
    if forall k :: k in hsh ==> Decode(hsh[k], loads).Ok? then
      Ok(map k | k in hsh :: Decode(hsh[k], loads).value)
    else Err(JsonError)
  }

  /** A field whose text reads back as the field itself: `None`, a string
      that neither reads `NULL` nor starts with `JSON:`, or a container whose
      JSON text decodes to it. */
  predicate Faithful(v: OS.Value, dumps: OS.Value -> string, loads: string -> Option<OS.Value>)
  {
    match v
    case Null => true
    case Str(s) => s != NullText && !Strings.StartsWith(s, JsonPrefix)
    case Int(_) => false
    case _ => loads(dumps(v)) == Some(v)
  }

  /** `_deserialize` inverts the encoding of `set` for an object of such
      fields. */
  lemma DeserializeSerialized(obj: map<string, OS.Value>, dumps: OS.Value -> string, loads: string -> Option<OS.Value>)
    requires forall k :: k in obj ==> Faithful(obj[k], dumps, loads)
    ensures Deserialized(Serialized(obj, dumps), loads) == Ok(obj)
  {
    var h := Serialized(obj, dumps);
    forall k | k in obj ensures Decode(h[k], loads) == Ok(obj[k]) {
      DecodeFieldText(obj[k], dumps, loads);
    }
    assert (map k | k in h :: Decode(h[k], loads).value) == obj;
  }

  /** `_remove_namespace` as written: every occurrence of `namespace:` is
      removed, wherever it is. */
  function RemoveNamespace(namespace: string, key: string): string
  {
    Strings.Replace(key, namespace + ":", "")
  }

  /** For a key that does not itself contain `namespace:`, removing the
      namespace undoes `get_key_name`. */
  lemma RemoveNamespaceUndoesKeyName(namespace: string, key: string)
    requires !Strings.Contains(key, namespace + ":")
    ensures RemoveNamespace(namespace, OS.KeyName(namespace, key)) == key
  {
    var p := namespace + ":";
    var s := OS.KeyName(namespace, key);
    assert s[..|p|] == p;
    assert Strings.Find(s, p) == 0;
    assert s[|p|..] == key;
    assert Strings.Replace(key, p, "") == key;
    assert s[..0] + "" + key == key;
  }

  /** A key that contains the prefix again loses more than the prefix:
      `a:b` stored in namespace `a` is listed as `b`. */
  lemma RemoveNamespaceLosesRepeatedPrefix()
    ensures OS.KeyName("a", "a:b") == "a:a:b"
    ensures RemoveNamespace("a", OS.KeyName("a", "a:b")) == "b"
  {
    assert Strings.Find("a:a:b", "a:") == 0;
    assert "a:a:b"[2..] == "a:b";
    assert Strings.Find("a:b", "a:") == 0;
    assert "a:b"[2..] == "b";
    assert Strings.Find("b", "a:") == -1;
    assert Strings.Replace("b", "a:", "") == "b";
    assert Strings.Replace("a:b", "a:", "") == "" + "" + "b";
  }

  /** The namespace prefix removed once, from the front only. */
  function StripNamespace(namespace: string, key: string): string
  {
    if Strings.StartsWith(key, namespace + ":") then key[|namespace| + 1..] else key
  }

  /** Stripping the namespace undoes `get_key_name` for every key. */
  lemma StripNamespaceUndoesKeyName(namespace: string, key: string)
    ensures StripNamespace(namespace, OS.KeyName(namespace, key)) == key
  {
  }

  /** The reserved key cannot be written, so the index's own key never names
      an object. */
  lemma IndexKeyIsNoObjectKey(namespace: string, key: string)
    ensures key !in Reserved ==> OS.KeyName(namespace, key) != OS.KeyName(namespace, "INDEX")
  {
    if key !in Reserved && OS.KeyName(namespace, key) == OS.KeyName(namespace, "INDEX") {
      OS.KeyNameInjective(namespace, key, "INDEX");
    }
  }

  /** The loop of `set`, over the object's fields. */
  method Serialize(obj: map<string, OS.Value>, dumps: OS.Value -> string) returns (toStore: map<string, string>)
    ensures toStore == Serialized(obj, dumps)
  {
    toStore := map[];
    var left := obj.Keys;
    while left != {}
      invariant left <= obj.Keys
      invariant toStore.Keys == obj.Keys - left
      invariant forall k :: k in toStore ==> toStore[k] == FieldText(obj[k], dumps)
      decreases left
    {
      var k :| k in left;
      var v := obj[k];
      if v.List? || v.Tuple? || v.Dict? {
        toStore := toStore[k := JsonPrefix + dumps(v)];
      } else if v.Null? {
        toStore := toStore[k := NullText];
      } else if v.Str? {
        toStore := toStore[k := v.s];
      } else {
        toStore := toStore[k := Strings.IntToString(v.i)];
      }
      left := left - {k};
    }
  }

  /** The loop of `_deserialize`, over the hash's fields. */
  method Deserialize(hsh: map<string, string>, loads: string -> Option<OS.Value>) returns (r: Result<map<string, OS.Value>, Error>)
    ensures r == Deserialized(hsh, loads)
  {
    var out: map<string, OS.Value> := map[];
    var left := hsh.Keys;
    while left != {}
      invariant left <= hsh.Keys
      invariant out.Keys == hsh.Keys - left
      invariant forall k :: k in out ==> Decode(hsh[k], loads) == Ok(out[k])
      decreases left
    {
      var k :| k in left;
      var v := hsh[k];
      if Strings.StartsWith(v, JsonPrefix) {
        var parsed := loads(v[|JsonPrefix|..]);
        if parsed.None? {
          return Err(JsonError);
        }
        out := out[k := parsed.value];
      } else if v == NullText {
        out := out[k := OS.Null];
      } else {
        out := out[k := OS.Str(v)];
      }
      left := left - {k};
    }
    assert out == map k | k in hsh :: Decode(hsh[k], loads).value;
    r := Ok(out);
  }

  /** A listed object: `None` when the store has no hash under the key. */
  function AsObject(found: Option<map<string, OS.Value>>): OS.Value
  {
    if found.None? then OS.Null else OS.Dict(found.value)
  }

  class RedisObjectStore {
    const namespace: string
    /** The Redis hashes, by Redis key; Redis keeps no empty hash. */
    var hashes: map<string, map<string, string>>
    /** The members of the Redis set under `namespace:INDEX`. */
    var index: set<string>

    /** The Redis key of the index set. */
    function IndexName(): string
    {
      OS.KeyName(namespace, "INDEX")
    }

    ghost predicate Valid()
      reads this
    {
      (forall name :: name in hashes ==> hashes[name] != map[]) &&
      IndexName() !in hashes && IndexName() !in index
    }

    constructor(namespace: string)
      ensures Valid() && this.namespace == namespace && hashes == map[] && index == {}
    {
      this.namespace := namespace;
      hashes := map[];
      index := {};
    }

    /** The hash under a store key, or the empty hash Redis answers for a
        missing one. */
    function HashAt(name: string): map<string, string>
      reads this
    {
      if name in hashes then hashes[name] else map[]
    }

    /** `set` as written: a reserved key is refused; the fields are written
        with HMSET, which keeps any other field the hash already has; the
        store key joins the index. A missing or empty object has no fields
        to write, which Redis refuses. */
    method Set(key: string, value: Option<map<string, OS.Value>>, dumps: OS.Value -> string) returns (r: Outcome<Error>)
      requires Valid()
      modifies this
      ensures Valid()
      ensures key in Reserved ==> r == Fail(ReservedKey("Key reserved for internal use: " + key))
      ensures r.Fail? ==> hashes == old(hashes) && index == old(index)
      ensures key !in Reserved && value.Some? && value.value != map[] ==>
        r == Pass &&
        hashes == old(hashes)[OS.KeyName(namespace, key) := old(HashAt(OS.KeyName(namespace, key))) + Serialized(value.value, dumps)] &&
        index == old(index) + {OS.KeyName(namespace, key)}
      ensures key !in Reserved && (value.None? || value.value == map[]) ==> r == Fail(EmptyHash)
      ensures old(index == hashes.Keys) ==> index == hashes.Keys
    {
      if key in Reserved {
        return Fail(ReservedKey("Key reserved for internal use: " + key));
      }
      var obj := if value.None? || value.value == map[] then map[] else value.value;
      var toStore := Serialize(obj, dumps);
      if toStore == map[] {
        return Fail(EmptyHash);
      }
      var name := OS.KeyName(namespace, key);
      IndexKeyIsNoObjectKey(namespace, key);
      hashes := hashes[name := HashAt(name) + toStore];
      index := index + {name};
      r := Pass;
    }

    /** `set` as evidently meant: the object replaces whatever the hash
        held. */
    method SetReplacing(key: string, value: Option<map<string, OS.Value>>, dumps: OS.Value -> string) returns (r: Outcome<Error>)
      requires Valid()
      modifies this
      ensures Valid()
      ensures key in Reserved ==> r == Fail(ReservedKey("Key reserved for internal use: " + key))
      ensures r.Fail? ==> hashes == old(hashes) && index == old(index)
      ensures key !in Reserved && value.Some? && value.value != map[] ==>
        r == Pass &&
        hashes == old(hashes)[OS.KeyName(namespace, key) := Serialized(value.value, dumps)] &&
        index == old(index) + {OS.KeyName(namespace, key)}
      ensures key !in Reserved && (value.None? || value.value == map[]) ==> r == Fail(EmptyHash)
      ensures old(index == hashes.Keys) ==> index == hashes.Keys
    {
      if key in Reserved {
        return Fail(ReservedKey("Key reserved for internal use: " + key));
      }
      var obj := if value.None? || value.value == map[] then map[] else value.value;
      var toStore := Serialize(obj, dumps);
      if toStore == map[] {
        return Fail(EmptyHash);
      }
      var name := OS.KeyName(namespace, key);
      IndexKeyIsNoObjectKey(namespace, key);
      hashes := hashes[name := toStore];
      index := index + {name};
      r := Pass;
    }

    /** `_get`: HGETALL on the key of a non-empty index set is a Redis error;
        otherwise no object for a missing (empty) hash, and the hash
        deserialized for a present one. */
    function GetAt(name: string, loads: string -> Option<OS.Value>): (r: Result<Option<map<string, OS.Value>>, Error>)
      reads this
      ensures name == IndexName() && index != {} ==> r == Err(WrongType)
      ensures name != IndexName() || index == {} ==>
        (name !in hashes ==> r == Ok(None)) &&
        (name in hashes && hashes[name] != map[] ==>
          (r.Ok? <==> Deserialized(hashes[name], loads).Ok?) &&
          (r.Ok? ==> r.value == Some(Deserialized(hashes[name], loads).value)))
    {
      var h := HashAt(name);
      if name == IndexName() && index != {} then Err(WrongType)
      else if h == map[] then Ok(None)
      else
        match Deserialized(h, loads)
        case Err(e) => Err(e)
        case Ok(obj) => Ok(Some(obj))
    }

    /** `get`: the reserved key reads the index set, which fails once the
        set has members; any other key has an object exactly when it
        exists. */
    function Get(key: string, loads: string -> Option<OS.Value>): (r: Result<Option<map<string, OS.Value>>, Error>)
      reads this
      ensures Valid() && key in Reserved ==> r == if index != {} then Err(WrongType) else Ok(None)
      ensures Valid() && key !in Reserved ==> (r == Ok(None) <==> !Exists(key))
    {
      IndexKeyIsNoObjectKey(namespace, key);
      GetAt(OS.KeyName(namespace, key), loads)
    }

    /** `exists`: Redis `EXISTS` on the store key, which also finds the
        index set under the reserved key while the set has members. */
    function Exists(key: string): (r: bool)
      reads this
      ensures Valid() && key in Reserved ==> (r <==> index != {})
    {
      OS.KeyName(namespace, key) in hashes || (OS.KeyName(namespace, key) == IndexName() && index != {})
    }

    /** `delete` as written: Redis `DEL` on the store key. An object's hash
        goes but its name stays in the index; the reserved key deletes the
        index set itself. */
    method Delete(key: string)
      requires Valid()
      modifies this
      ensures Valid()
      ensures hashes == old(hashes) - {OS.KeyName(namespace, key)}
      ensures index == if key in Reserved then {} else old(index)
      ensures !Exists(key)
      ensures old(OS.KeyName(namespace, key) in index) ==> OS.KeyName(namespace, key) in index - hashes.Keys
    {
      IndexKeyIsNoObjectKey(namespace, key);
      hashes := hashes - {OS.KeyName(namespace, key)};
      if OS.KeyName(namespace, key) == IndexName() {
        index := {};
      }
    }

    /** `delete` as evidently meant: the reserved key is refused as `set`
        refuses it, and an object's name leaves the index with its hash. */
    method DeleteUnindexed(key: string) returns (r: Outcome<Error>)
      requires Valid()
      modifies this
      ensures Valid()
      ensures key in Reserved ==>
        r == Fail(ReservedKey("Key reserved for internal use: " + key)) && hashes == old(hashes) && index == old(index)
      ensures key !in Reserved ==>
        r == Pass && hashes == old(hashes) - {OS.KeyName(namespace, key)} &&
        index == old(index) - {OS.KeyName(namespace, key)} && !Exists(key)
      ensures old(index == hashes.Keys) ==> index == hashes.Keys
    {
      if key in Reserved {
        return Fail(ReservedKey("Key reserved for internal use: " + key));
      }
      IndexKeyIsNoObjectKey(namespace, key);
      hashes := hashes - {OS.KeyName(namespace, key)};
      index := index - {OS.KeyName(namespace, key)};
      r := Pass;
    }

    /** `list_sorted`, over the index's members in the order Redis returns
        them (SMEMBERS, or SORT when an attribute orders them): each member
        with its namespace removed as `_remove_namespace` does and its
        object, `None` when it has none. */
    method ListSorted(members: seq<string>, loads: string -> Option<OS.Value>) returns (r: Result<seq<OS.Item>, Error>)
      requires forall m :: m in members ==> m in index
      ensures r.Ok? ==> |r.value| == |members|
      ensures r.Ok? ==> forall i :: 0 <= i < |members| ==>
        GetAt(members[i], loads).Ok? &&
        r.value[i] == OS.Item(RemoveNamespace(namespace, members[i]), AsObject(GetAt(members[i], loads).value))
      ensures r.Ok? && Valid() ==> forall i :: 0 <= i < |members| ==> (r.value[i].obj.Dict? <==> members[i] in hashes)
      ensures r.Err? <==> exists i :: 0 <= i < |members| && GetAt(members[i], loads).Err?
    {
      var out: seq<OS.Item> := [];
      var i := 0;
      while i < |members|
        invariant 0 <= i <= |members| && |out| == i
        invariant forall j :: 0 <= j < i ==> GetAt(members[j], loads).Ok?
        invariant forall j :: 0 <= j < i ==>
          out[j] == OS.Item(RemoveNamespace(namespace, members[j]), AsObject(GetAt(members[j], loads).value))
      {
        var found := GetAt(members[i], loads);
        if found.Err? {
          return Err(found.error);
        }
        out := out + [OS.Item(RemoveNamespace(namespace, members[i]), AsObject(found.value))];
        i := i + 1;
      }
      r := Ok(out);
    }
  }

  /** The fields sent for a one-field object holding a string. */
  lemma SerializedOneStr(k: string, t: string, dumps: OS.Value -> string)
    ensures Serialized(map[k := OS.Str(t)], dumps) == map[k := t]
  {
  }

  /** An object set twice under one key, the second time with other fields,
      reads back with the fields of both: `set` as written merges. */
  method SetMergesStaleFields() returns (got: Result<Option<map<string, OS.Value>>, Error>)
    ensures got == Ok(Some(map["a" := OS.Str("x"), "b" := OS.Str("y")]))
  {
    var dumps := (v: OS.Value) => "";
    var loads := (t: string) => None;
    var store := new RedisObjectStore("ns");
    var name := OS.KeyName("ns", "k");
    var first := map["a" := OS.Str("x")];
    var second := map["b" := OS.Str("y")];
    assert "k" !in Reserved && "a" in first && "b" in second;
    SerializedOneStr("a", "x", dumps);
    SerializedOneStr("b", "y", dumps);
    assert store.HashAt(name) == map[];
    assert map[] + map["a" := "x"] == map["a" := "x"];
    var r1 := store.Set("k", Some(first), dumps);
    assert store.hashes == map[name := map["a" := "x"]];
    assert store.HashAt(name) == map["a" := "x"];
    var both := map["a" := "x", "b" := "y"];
    assert map["a" := "x"] + map["b" := "y"] == both;
    var r2 := store.Set("k", Some(second), dumps);
    assert store.hashes == map[name := both];
    assert !Strings.StartsWith("x", JsonPrefix) && !Strings.StartsWith("y", JsonPrefix);
    ghost var read := Deserialized(both, loads);
    assert read.Ok? && read.value == map["a" := OS.Str("x"), "b" := OS.Str("y")];
    got := store.Get("k", loads);
  }

  /** The same two writes with the replacing `set`: only the second
      object's fields are read back. */
  method SetReplacingDropsStaleFields() returns (got: Result<Option<map<string, OS.Value>>, Error>)
    ensures got == Ok(Some(map["b" := OS.Str("y")]))
  {
    var dumps := (v: OS.Value) => "";
    var loads := (t: string) => None;
    var store := new RedisObjectStore("ns");
    var name := OS.KeyName("ns", "k");
    var first := map["a" := OS.Str("x")];
    var second := map["b" := OS.Str("y")];
    assert "k" !in Reserved && "a" in first && "b" in second;
    SerializedOneStr("a", "x", dumps);
    SerializedOneStr("b", "y", dumps);
    var r1 := store.SetReplacing("k", Some(first), dumps);
    var r2 := store.SetReplacing("k", Some(second), dumps);
    assert store.hashes == map[name := map["b" := "y"]];
    assert !Strings.StartsWith("y", JsonPrefix);
    ghost var read := Deserialized(map["b" := "y"], loads);
    assert read.Ok? && read.value == map["b" := OS.Str("y")];
    got := store.Get("k", loads);
  }

  /** An object deleted after it was set is still listed, with `None` for
      its object, and it passes an empty set of filters: `delete` as written
      leaves its name in the index. */
  method DeletedObjectStillListed() returns (listed: Result<seq<OS.Item>, OS.Error>)
    ensures listed == Ok([OS.Item("k", OS.Null)])
  {
    var dumps := (v: OS.Value) => "";
    var loads := (t: string) => None;
    var store := new RedisObjectStore("ns");
    var name := OS.KeyName("ns", "k");
    var first := map["a" := OS.Str("x")];
    assert "k" !in Reserved && "a" in first;
    var r1 := store.Set("k", Some(first), dumps);
    store.Delete("k");
    assert store.index == {name} && store.hashes == map[];
    assert store.GetAt(name, loads) == Ok(None);
    var items := store.ListSorted([name], loads);
    RemoveNamespaceUndoesKeyName("ns", "k");
    assert items.Ok?;
    assert items.value[0] == OS.Item("k", OS.Null);
    assert items.value == [OS.Item("k", OS.Null)];
    listed := OS.ListItems(items.value, None, []);
    assert OS.Matches(OS.Null, []) == Ok(true);
    assert OS.Listed(items.value[1..], [], None) == Ok([]);
    assert [OS.Item("k", OS.Null)] + [] == [OS.Item("k", OS.Null)];
  }

  /** With the replacing `set` and the unindexing `delete`, the index names
      exactly the stored hashes, so every object listed is present. */
  method ListedObjectsArePresent(store: RedisObjectStore, members: seq<string>, loads: string -> Option<OS.Value>)
    returns (r: Result<seq<OS.Item>, Error>)
    requires store.Valid() && store.index == store.hashes.Keys
    requires forall m :: m in members ==> m in store.index
    ensures r.Ok? ==> forall i :: 0 <= i < |r.value| ==> r.value[i].obj.Dict?
  {
    r := store.ListSorted(members, loads);
  }

  /** Writing an object of faithful fields with the replacing `set` and
      reading it back gives the object. */
  method SetThenGet(store: RedisObjectStore, key: string, obj: map<string, OS.Value>,
                    dumps: OS.Value -> string, loads: string -> Option<OS.Value>)
    requires store.Valid() && key !in Reserved && obj != map[]
    requires forall k :: k in obj ==> Faithful(obj[k], dumps, loads)
    modifies store
    ensures store.Get(key, loads) == Ok(Some(obj))
  {
    var r := store.SetReplacing(key, Some(obj), dumps);
    IndexKeyIsNoObjectKey(store.namespace, key);
    DeserializeSerialized(obj, dumps, loads);
  }
}
