/** Plain JavaScript objects used as string-keyed dictionaries: the roster of
    a class, the store of all classes, the prepared roster and the pattern
    table. Iteration order matters to the source (the first matching student
    wins, missing students are listed in roster order), so an object is its
    own properties by key together with the keys in insertion order, the
    order `Object.keys` and `Object.entries` report. */
module JsObject {
  import opened Wrappers
  import opened Seqs

  datatype Obj<V> = Obj(keys: seq<string>, values: map<string, V>)

  /** Keys are listed once each, and exactly the keys that have a value. */
  ghost predicate Valid<V>(o: Obj<V>) {
    Distinct(o.keys) && forall k :: k in o.values <==> k in o.keys
  }

  type Dict<V> = o: Obj<V> | Valid(o) witness Obj([], map[])

  /** `{}` */
  function Empty<V>(): (d: Dict<V>)
    ensures d.keys == [] && d.values == map[]
  {
    Obj([], map[])
  }

  /** `obj[k]`, `undefined` when `k` is not an own key. */
  function Get<V>(d: Dict<V>, k: string): (r: Option<V>)
    ensures r.Some? <==> k in d.keys
    ensures r.Some? ==> r.value == d.values[k]
  {
    if k in d.values then Some(d.values[k]) else None
  }

  /** `obj[k] = v`: an existing key keeps its place in the order, a new key
      goes last. */
  function Assign<V>(d: Dict<V>, k: string, v: V): (r: Dict<V>)
    ensures r.values == d.values[k := v]
    ensures k in d.values ==> r.keys == d.keys
    ensures k !in d.values ==> r.keys == d.keys + [k]
  {
    if k in d.values then Obj(d.keys, d.values[k := v])
    else
      var keys := d.keys + [k];
      assert Distinct(keys) by {
        assert k !in d.keys;
      }
      Obj(keys, d.values[k := v])
  }

  /** The keys other than `k`. */
  function Other(k: string): string -> bool {
    x => x != k
  }

  /** `delete obj[k]`: the other keys keep their order; deleting an absent
      key changes nothing. */
  function Delete<V>(d: Dict<V>, k: string): (r: Dict<V>)
    ensures r.values == d.values - {k}
    ensures r.keys == Filter(d.keys, Other(k))
    ensures k !in d.values ==> r == d
  {
    if k !in d.values then
      FilterAll(d.keys, Other(k));
      d
    else
      DeleteValid(d, k);
      Obj(Filter(d.keys, Other(k)), d.values - {k})
  }

  /** Dropping a key from the values and from the key list keeps an object
      valid. */
  lemma DeleteValid<V>(d: Dict<V>, k: string)
    ensures Valid(Obj(Filter(d.keys, Other(k)), d.values - {k}))
  {
    FilterDistinct(d.keys, Other(k));
  }

  /** The object with the same keys, in the same order, and each value
      transformed by `f`. */
  function MapValues<V, W>(d: Dict<V>, f: V -> W): (r: Dict<W>)
    ensures r.keys == d.keys
    ensures r.values.Keys == d.values.Keys
    ensures forall k :: k in r.values ==> r.values[k] == f(d.values[k])
  {
    Obj(d.keys, map k | k in d.values :: f(d.values[k]))
  }

  /** Dropping a key appended to a list that lacked it gives back the list. */
  lemma FilterAppended(keys: seq<string>, k: string)
    requires k !in keys
    ensures Filter(keys + [k], Other(k)) == keys
  {
    var p := Other(k);
    FilterConcat(keys, [k], p);
    FilterAll(keys, p);
    assert Filter([k], p) == [];
  }

  /** Adding a new key and deleting it again gives back the object. */
  lemma AssignDelete<V>(d: Dict<V>, k: string, v: V)
    requires k !in d.values
    ensures Delete(Assign(d, k, v), k) == d
  {
    FilterAppended(d.keys, k);
    assert d.values[k := v] - {k} == d.values;
  }

  /** Writing back the value a key already has changes nothing. */
  lemma AssignSame<V>(d: Dict<V>, k: string)
    requires k in d.values
    ensures Assign(d, k, d.values[k]) == d
  {
  }

  /** A second write to a key overrides the first. */
  lemma AssignTwice<V>(d: Dict<V>, k: string, v1: V, v2: V)
    ensures Assign(Assign(d, k, v1), k, v2) == Assign(d, k, v2)
  {
    assert d.values[k := v1][k := v2] == d.values[k := v2];
  }
}
