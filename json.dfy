/**
  JSON values as Python's `json` module hands them over: objects become dicts,
  whose items keep the order in which their keys first appeared. Floats are
  kept as their literal text: the dashboard only ever asks whether a value is
  a float, never computes with one.
 */
module Json {
  import opened Wrappers

  datatype Json =
    | JNull
    | JBool(b: bool)
    | JInt(i: int)
    | JFloat(literal: string)
    | JString(s: string)
    | JArray(items: seq<Json>)
    | JObject(members: seq<(string, Json)>)

  /** The items of a dict, in iteration order. Keys of a real dict are distinct; lookups take the first match. */
  type Members = seq<(string, Json)>

  /** No two items share a key, as in every Python dict. */
  predicate DistinctKeys(members: Members)
  {
    forall i, j :: 0 <= i < j < |members| ==> members[i].0 != members[j].0
  }

  /** `key in d` */
  predicate HasKey(members: Members, key: string)
  {
    exists i :: 0 <= i < |members| && members[i].0 == key
  }

  /** `d.get(key)`: the value stored under `key`, or `None` when the key is absent. */
  function Get(members: Members, key: string): Option<Json>
    decreases |members|
  {
    if members == [] then None
    else if members[0].0 == key then Some(members[0].1)
    else Get(members[1..], key)
  }

  /** `get` finds a value exactly when the key is present, and the value is stored under that key. */
  lemma {:induction false} GetFindsKey(members: Members, key: string)
    ensures Get(members, key).Some? <==> HasKey(members, key)
    ensures Get(members, key).Some? ==> (key, Get(members, key).value) in members
    decreases |members|
  {
    if members != [] && members[0].0 != key {
      GetFindsKey(members[1..], key);
      if HasKey(members, key) {
        var i :| 0 <= i < |members| && members[i].0 == key;
        assert members[1..][i - 1].0 == key;
      }
    }
  }

  /** `d.pop(key, None)`, as its effect on the dict: every item under `key` goes, every other stays in order. */
  function Without(members: Members, key: string): Members
    decreases |members|
  {
    if members == [] then []
    else if members[0].0 == key then Without(members[1..], key)
    else [members[0]] + Without(members[1..], key)
  }

  /** After the pop the key is gone, every other key reads as before, and a dict without the key is left as it was. */
  lemma {:induction false} WithoutRemovesKey(members: Members, key: string)
    ensures !HasKey(Without(members, key), key)
    ensures forall k :: k != key ==> Get(Without(members, key), k) == Get(members, k)
    ensures !HasKey(members, key) ==> Without(members, key) == members
    decreases |members|
  {
    if members != [] {
      WithoutRemovesKey(members[1..], key);
      var rest := Without(members[1..], key);
      if members[0].0 != key {
        assert ([members[0]] + rest)[1..] == rest;
        assert forall i :: 1 <= i < |rest| + 1 ==> ([members[0]] + rest)[i] == rest[i - 1];
      }
      assert forall i :: 0 <= i < |members| - 1 ==> members[1..][i] == members[i + 1];
    }
  }

  /** Popping each key of `keys` in turn. */
  function WithoutAll(members: Members, keys: seq<string>): Members
    decreases |keys|
  {
    if keys == [] then members
    else WithoutAll(Without(members, keys[0]), keys[1..])
  }

  /** After popping a list of keys none of them is left, and every other key reads as before. */
  lemma {:induction false} WithoutAllRemovesKeys(members: Members, keys: seq<string>)
    ensures forall k :: k in keys ==> !HasKey(WithoutAll(members, keys), k)
    ensures forall k :: k !in keys ==> Get(WithoutAll(members, keys), k) == Get(members, k)
    decreases |keys|
  {
    if keys != [] {
      var m := Without(members, keys[0]);
      WithoutRemovesKey(members, keys[0]);
      WithoutAllRemovesKeys(m, keys[1..]);
      forall k | k in keys ensures !HasKey(WithoutAll(members, keys), k) {
        if k !in keys[1..] {
          assert k == keys[0];
          GetFindsKey(WithoutAll(m, keys[1..]), k);
          GetFindsKey(m, k);
        }
      }
    }
  }
}
