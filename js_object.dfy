/**
 * A plain JavaScript object used as a dictionary with string keys. `Object.keys`
 * lists own keys in insertion order (for keys that are not array indices), so the
 * model keeps the key order next to the key/value map.
 */
module JsObject {
  import opened Seqs

  datatype Obj<V> = Obj(keys: seq<string>, entries: map<string, V>) {

    /** Every key is listed once, and exactly the keys of the map are listed. */
    predicate Valid() {
      Distinct(keys) && (forall k :: k in entries ==> k in keys) && (forall k :: k in keys ==> k in entries)
    }

    /** `k in obj` */
    predicate Has(k: string) {
      k in entries
    }
  }

  /** `{}` */
  function Empty<V>(): (o: Obj<V>)
    ensures o.Valid() && o.keys == [] && o.entries == map[]
  {
    Obj([], map[])
  }

  /** `x => x !== k` */
  function Other(k: string): string -> bool {
    x => x != k
  }

  /** The key sequence without `k`. */
  function RemoveKey(keys: seq<string>, k: string): (r: seq<string>)
    ensures forall x :: x in r <==> x in keys && x != k
    ensures Subseq(r, keys)
    ensures Distinct(keys) ==> Distinct(r)
    ensures k !in keys ==> r == keys
  {
    RemoveKeyFacts(keys, k);
    Filter(keys, Other(k))
  }

  lemma RemoveKeyFacts(keys: seq<string>, k: string)
    ensures Subseq(Filter(keys, Other(k)), keys)
    ensures Distinct(keys) ==> Distinct(Filter(keys, Other(k)))
    ensures k !in keys ==> Filter(keys, Other(k)) == keys
    ensures forall x :: x in Filter(keys, Other(k)) <==> x in keys && x != k
  {
    FilterIsSubseq(keys, Other(k));
    FilterMembers(keys, Other(k));
    if k !in keys {
      FilterAll(keys, Other(k));
    }
    DistinctSubseq(Filter(keys, Other(k)), keys);
  }

  lemma {:induction false} DistinctSubseq<T>(a: seq<T>, b: seq<T>)
    requires Subseq(a, b)
    ensures Distinct(b) ==> Distinct(a)
    decreases |b|
  {
    if a != [] && Distinct(b) {
      assert Distinct(b[1..]);
      if a[0] == b[0] && Subseq(a[1..], b[1..]) {
        DistinctSubseq(a[1..], b[1..]);
        SubseqLength(a[1..], b[1..]);
        assert a == [a[0]] + a[1..];
        assert forall j :: 1 <= j < |b| ==> b[j] != b[0];
        assert b[0] !in b[1..];
      } else {
        DistinctSubseq(a, b[1..]);
      }
    }
  }

  /**
   * `obj[k] = v`: the value is replaced; a new key is appended to the key order,
   * an existing key keeps its position.
   */
  function Set<V>(o: Obj<V>, k: string, v: V): (r: Obj<V>)
    requires o.Valid()
    ensures r.Valid()
    ensures r.entries == o.entries[k := v]
    ensures r.keys == if k in o.entries then o.keys else o.keys + [k]
  {
    Obj(if k in o.entries then o.keys else o.keys + [k], o.entries[k := v])
  }

  /** `delete obj[k]`: the key leaves both the map and the key order. */
  function Delete<V>(o: Obj<V>, k: string): (r: Obj<V>)
    requires o.Valid()
    ensures r.Valid()
    ensures r.entries == o.entries - {k}
    ensures r.keys == RemoveKey(o.keys, k)
  {
    Obj(RemoveKey(o.keys, k), o.entries - {k})
  }

  /** Deleting a key that was just added gives back the object as it was. */
  lemma DeleteAfterAdd<V>(o: Obj<V>, k: string, v: V)
    requires o.Valid() && !o.Has(k)
    ensures Delete(Set(o, k, v), k) == o
  {
    RemoveAppended(o.keys, k);
    assert o.entries[k := v] - {k} == o.entries;
  }

  lemma RemoveAppended(keys: seq<string>, k: string)
    requires k !in keys
    ensures RemoveKey(keys + [k], k) == keys
  {
    FilterSnoc(keys, k, Other(k));
    assert !Other(k)(k);
    assert RemoveKey(keys, k) == keys;
  }

  /** Re-adding a key that was just deleted keeps the same key set but moves the key to the end. */
  lemma AddAfterDelete<V>(o: Obj<V>, k: string, v: V)
    requires o.Valid() && o.Has(k)
    ensures forall x :: x in Set(Delete(o, k), k, v).keys <==> x in o.keys
    ensures Set(Delete(o, k), k, v).keys == RemoveKey(o.keys, k) + [k]
    ensures Set(Delete(o, k), k, v).entries == o.entries[k := v]
  {
    var d := Delete(o, k);
    assert k !in d.entries;
    assert Set(d, k, v).keys == RemoveKey(o.keys, k) + [k];
    assert d.entries[k := v] == o.entries[k := v];
  }
}
