/** An id-keyed registry that remembers insertion order, the way a plain
    JavaScript object keyed by non-numeric strings does: `Object.values`
    walks the keys in the order they were first assigned, and assigning an
    existing key replaces its value in place. */
module Registry {
  import opened Common

  datatype Reg<T> = Reg(keys: seq<string>, m: map<string, T>)

  /** Keys are listed once each, and exactly the keys of the map are listed. */
  ghost predicate Valid<T>(r: Reg<T>) {
    && Distinct(r.keys)
    && (forall i :: 0 <= i < |r.keys| ==> r.keys[i] in r.m)
    && (forall k :: k in r.m ==> k in r.keys)
  }

  function Empty<T>(): (r: Reg<T>)
    ensures Valid(r) && |r.keys| == 0
  {
    Reg([], map[])
  }

  function Get<T>(r: Reg<T>, k: string): (o: Option<T>)
    ensures o.Some? <==> k in r.m
    ensures o.Some? ==> o.value == r.m[k]
  {
    if k in r.m then Some(r.m[k]) else None
  }

  /** Assignment `obj[k] = v`: replaces in place, or appends a new key at the end. */
  function Put<T>(r: Reg<T>, k: string, v: T): (r': Reg<T>)
    ensures r'.m == r.m[k := v]
    ensures k in r.m ==> r'.keys == r.keys
    ensures k !in r.m ==> r'.keys == r.keys + [k]
    ensures Valid(r) ==> Valid(r')
  {
    if k in r.m then Reg(r.keys, r.m[k := v]) else Reg(r.keys + [k], r.m[k := v])
  }

  /** Reading a key back after assigning it yields the assigned value, and
      assigning one key leaves every other key's reading alone. */
  lemma GetPut<T>(r: Reg<T>, k: string, v: T, k': string)
    ensures Get(Put(r, k, v), k) == Some(v)
    ensures k' != k ==> Get(Put(r, k, v), k') == Get(r, k')
  {
  }

  /** `Object.values`: the values in key order. */
  function Values<T>(r: Reg<T>): seq<T> {
    ValuesOf(r.keys, r.m)
  }

  function ValuesOf<T>(keys: seq<string>, m: map<string, T>): (vs: seq<T>)
    ensures (forall i :: 0 <= i < |keys| ==> keys[i] in m) ==> |vs| == |keys|
    ensures (forall i :: 0 <= i < |keys| ==> keys[i] in m) ==>
              forall i :: 0 <= i < |keys| ==> vs[i] == m[keys[i]]
    decreases |keys|
  {
    if |keys| == 0 then []
    else (if keys[0] in m then [m[keys[0]]] else []) + ValuesOf(keys[1..], m)
  }

  /** Applies `f` to every value, keeping the keys and their order. */
  function MapValues<T, U>(r: Reg<T>, f: T -> U): (r': Reg<U>)
    ensures r'.keys == r.keys && r'.m.Keys == r.m.Keys
    ensures forall k :: k in r.m ==> r'.m[k] == f(r.m[k])
    ensures Valid(r) ==> Valid(r')
  {
    Reg(r.keys, map k | k in r.m :: f(r.m[k]))
  }
}
