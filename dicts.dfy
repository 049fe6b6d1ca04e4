/** Python's insertion-ordered `dict`: the sequence of keys in the order they
    were first inserted, together with the key-to-value map. Reassigning an
    existing key keeps its position; a new key goes to the end. */
module Dicts {

  datatype Option<T> = None | Some(value: T) {
    /** `d.get(k, default)` for a lookup that produced this option. */
    function GetOr(default: T): T {
      match this
      case Some(v) => v
      case None => default
    }
  }

  /** No element occurs twice in `s`. */
  ghost predicate Distinct<T>(s: seq<T>) {
    forall i, j :: 0 <= i < j < |s| ==> s[i] != s[j]
  }

  /** `s` with every occurrence of `x` removed, the rest in order. */
  function Without<T(==,!new)>(s: seq<T>, x: T): (r: seq<T>)
    ensures forall y :: y in r <==> y in s && y != x
    ensures Distinct(s) ==> Distinct(r)
  {
    if s == [] then []
    else
      var rest := Without(s[1..], x);
      assert Distinct(s) ==> s[0] !in s[1..] && Distinct(s[1..]);
      if s[0] == x then rest else [s[0]] + rest
  }

  datatype Dict<K(==,!new), V> = Dict(keys: seq<K>, items: map<K, V>) {

    /** What every Python dict satisfies: each key listed once, and the listed
        keys are exactly the keys that have a value. */
    ghost predicate Valid() {
      && Distinct(keys)
      && (forall k :: k in items <==> k in keys)
    }

    /** `d[k] = v` */
    function Put(k: K, v: V): (r: Dict<K, V>)
      ensures Valid() ==> r.Valid()
      ensures r.items == items[k := v]
    {
      if k in items then Dict(keys, items[k := v]) else Dict(keys + [k], items[k := v])
    }

    /** Writing a key twice leaves what writing it once with the second value does. */
    lemma PutPut(k: K, v1: V, v2: V)
      ensures Put(k, v1).Put(k, v2) == Put(k, v2)
    {
      assert Put(k, v1).Put(k, v2).items == Put(k, v2).items;
    }

    /** `d.pop(k, None)` */
    function Remove(k: K): (r: Dict<K, V>)
      ensures Valid() ==> r.Valid()
      ensures r.items == items - {k}
    {
      Dict(Without(keys, k), items - {k})
    }

    /** The dict without its last key: what it was before that key's insertion. */
    function DropLast(): (r: Dict<K, V>)
      requires Valid() && keys != []
      ensures r.Valid() && |r.keys| == |keys| - 1
      ensures keys[|keys| - 1] in items && keys[|keys| - 1] !in r.items
      ensures r.items[keys[|keys| - 1] := items[keys[|keys| - 1]]] == items
    {
      var n := |keys| - 1;
      var r := Dict(keys[..n], items - {keys[n]});
      assert r.Valid() by {
        forall j | 0 <= j < n ensures keys[j] != keys[n] { }
      }
      r
    }

    /** `d.update(other)`: the keys of `other`, in its order, are written into `d`. */
    function Update(other: Dict<K, V>): (r: Dict<K, V>)
      requires other.Valid()
      ensures Valid() ==> r.Valid()
      ensures r.items == items + other.items
      decreases |other.keys|
    {
      if other.keys == [] then
        assert other.items == map[];
        this
      else
        var k := other.keys[|other.keys| - 1];
        var rest := other.DropLast();
        MergeThenStore(items, rest.items, k, other.items[k]);
        Update(rest).Put(k, other.items[k])
    }

    /** Every value replaced by `f(key, value)`, the key order kept: what a
        loop `for k in d: d[k] = f(k, d[k])` leaves. */
    function MapWithKey(f: (K, V) -> V): (r: Dict<K, V>)
      ensures Valid() ==> r.Valid()
      ensures r.keys == keys && r.items.Keys == items.Keys
    {
      Dict(keys, map k | k in items :: f(k, items[k]))
    }

    /** That loop after its first `j` iterations. */
    function MapFirst(f: (K, V) -> V, j: nat): (r: Dict<K, V>)
      requires j <= |keys|
      ensures r.keys == keys && r.items.Keys == items.Keys
    {
      Dict(keys, map k | k in items :: if k in keys[..j] then f(k, items[k]) else items[k])
    }

    lemma MapFirstStart(f: (K, V) -> V)
      ensures MapFirst(f, 0) == this
    {
      assert MapFirst(f, 0).items == items;
    }

    /** One iteration: the `j`-th key still holds its original value, and
        writing `f` of it gives the dict after `j + 1` iterations. */
    lemma MapFirstStep(f: (K, V) -> V, j: nat)
      requires Valid() && j < |keys|
      ensures keys[j] in items && keys[j] in MapFirst(f, j).items
      ensures MapFirst(f, j).items[keys[j]] == items[keys[j]]
      ensures MapFirst(f, j).Put(keys[j], f(keys[j], items[keys[j]])) == MapFirst(f, j + 1)
    {
      assert keys[j] !in keys[..j];
      assert keys[..j + 1] == keys[..j] + [keys[j]];
      assert MapFirst(f, j).Put(keys[j], f(keys[j], items[keys[j]])).items == MapFirst(f, j + 1).items;
    }

    lemma MapFirstEnd(f: (K, V) -> V)
      requires Valid()
      ensures MapFirst(f, |keys|) == MapWithKey(f)
    {
      assert keys[..|keys|] == keys;
      assert MapFirst(f, |keys|).items == MapWithKey(f).items;
    }

    /** The dict built by `{k: f(v) for k, v in d.items()}`. */
    function MapValues<W>(f: V -> W): (r: Dict<K, W>)
      ensures Valid() ==> r.Valid()
    {
      Dict(keys, map k | k in items :: f(items[k]))
    }
  }

  /** Storing into a merge is merging with the store. */
  lemma MergeThenStore<K, V>(a: map<K, V>, b: map<K, V>, k: K, v: V)
    ensures (a + b)[k := v] == a + b[k := v]
  {
  }

  /** `{}` */
  function EmptyDict<K(==,!new), V>(): (r: Dict<K, V>)
    ensures r.Valid() && r.items == map[]
  {
    Dict([], map[])
  }
}
