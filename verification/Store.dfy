/** samlidp/memory_store.go. Values are kept as they are, where the code keeps their JSON. */
module Store {
  import opened Wrappers

  function Names<V>(data: map<string, V>, prefix: string): set<string> {
    set key | key in data && prefix <= key :: key[|prefix|..]
  }

  /** The entries whose keys start with `prefix`, by the rest of the key. */
  function Under<V>(data: map<string, V>, prefix: string): map<string, V> {
    map name | name in Names(data, prefix) && prefix + name in data :: data[prefix + name]
  }

  class MemoryStore<V> {
    var data: map<string, V>

    constructor ()
      ensures data == map[]
    {
      data := map[];
    }

    /** None stands for ErrNotFound. */
    method Get(key: string) returns (value: Option<V>)
      ensures value == if key in data then Some(data[key]) else None
    {
      value := if key in data then Some(data[key]) else None;
    }

    method Put(key: string, value: V)
      modifies this
      ensures data == old(data)[key := value]
    {
      data := data[key := value];
    }

    method Delete(key: string)
      modifies this
      ensures data == old(data) - {key}
    {
      data := data - {key};
    }

    /** All the keys that start with the prefix, without it, each once and in any order. */
    method List(prefix: string) returns (names: seq<string>)
      ensures forall name :: name in names <==> name in Under(data, prefix)
      ensures forall i, j :: 0 <= i < j < |names| ==> names[i] != names[j]
    {
      names := [];
      var todo := data.Keys;
      while todo != {}
        invariant todo <= data.Keys
        invariant forall name :: name in names <==> prefix + name in data && prefix + name !in todo
        invariant forall i, j :: 0 <= i < j < |names| ==> names[i] != names[j]
        decreases |todo|
      {
        var key :| key in todo;
        if prefix <= key {
          assert key == prefix + key[|prefix|..];
          forall name | prefix + name == key ensures name == key[|prefix|..] {}
          names := names + [key[|prefix|..]];
        }
        todo := todo - {key};
      }
      forall name ensures prefix + name in data <==> name in Under(data, prefix) {
        UnderHas(data, prefix, name);
      }
    }
  }

  lemma UnderHas<V>(data: map<string, V>, prefix: string, name: string)
    ensures name in Under(data, prefix) <==> prefix + name in data
    ensures name in Under(data, prefix) ==> Under(data, prefix)[name] == data[prefix + name]
  {
    if prefix + name in data {
      assert (prefix + name)[|prefix|..] == name;
      assert name in Names(data, prefix);
    }
  }

  /** What is stored shows under its own prefix. */
  lemma PutUnder<V>(data: map<string, V>, prefix: string, name: string, value: V)
    ensures Under(data[prefix + name := value], prefix) == Under(data, prefix)[name := value]
  {
    hide Under, Names;
    var data' := data[prefix + name := value];
    forall n
      ensures n in Under(data', prefix) <==> n in Under(data, prefix)[name := value]
      ensures n in Under(data', prefix) ==> Under(data', prefix)[n] == Under(data, prefix)[name := value][n]
    {
      UnderHas(data', prefix, n);
      UnderHas(data, prefix, n);
      SameName(prefix, n, name);
    }
  }

  lemma SameName(prefix: string, m: string, n: string)
    ensures prefix + m == prefix + n <==> m == n
  {
    if prefix + m == prefix + n {
      assert m == (prefix + m)[|prefix|..] == n;
    }
  }

  /** What is stored under one prefix does not show under another, unless one starts with the other. */
  lemma PutUnderOther<V>(data: map<string, V>, prefix: string, name: string, value: V, other: string)
    requires !(prefix <= other) && !(other <= prefix)
    ensures Under(data[prefix + name := value], other) == Under(data, other)
  {
    hide Under, Names;
    var data' := data[prefix + name := value];
    forall n
      ensures n in Under(data', other) <==> n in Under(data, other)
      ensures n in Under(data', other) ==> Under(data', other)[n] == Under(data, other)[n]
    {
      UnderHas(data', other, n);
      UnderHas(data, other, n);
      if other + n == prefix + name {
        OneStartsTheOther(other, n, prefix, name);
      }
    }
  }

  lemma OneStartsTheOther(s: string, m: string, t: string, n: string)
    requires s + m == t + n
    ensures s <= t || t <= s
  {
    if |s| <= |t| {
      assert s == (s + m)[..|s|] && (t + n)[..|s|] == t[..|s|];
    } else {
      assert t == (t + n)[..|t|] && (s + m)[..|t|] == s[..|t|];
    }
  }
}
