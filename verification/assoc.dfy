/** The association-list map of data-structures/map/src/lib.rs: two
    parallel vectors of keys and values and a separate length counter.
    The Rust methods mutate `self`; here each returns the new map, and an
    `Err` result means the caller's map is left as it was. The meaning of
    a map is the finite `map<K, V>` it represents (`Abstract`), and each
    operation is proved to act on that meaning as the matching operation
    on Dafny's `map` does. */
module AssocList {
  import opened Wrappers
  import opened Sequences

  /** Rust's `MapError`, with the source's spelling of `DifferentLenght`. */
  datatype MapError = RepeatedKey | NoKey | DifferentLenght

  datatype Map<K, V> = Map(keys: seq<K>, values: seq<V>, len: nat)

  /** The invariant every public operation keeps: the counter agrees
      with both vectors, which are aligned, and no key occurs twice. */
  predicate Valid<K(==), V>(m: Map<K, V>) {
    m.len == |m.keys| == |m.values| && Distinct(m.keys)
  }

  /** `_find_value`: the position of the first occurrence of `key`. */
  function FindValue<K(==)>(keys: seq<K>, key: K): (r: Option<nat>)
    ensures r.None? <==> key !in keys
    ensures r.Some? ==> r.value < |keys| && keys[r.value] == key && key !in keys[..r.value]
  {
    if keys == [] then None
    else if keys[0] == key then Some(0)
    else match FindValue(keys[1..], key)
      case None => None
      case Some(i) =>
        assert keys[..i + 1] == [keys[0]] + keys[1..][..i];
        Some(i + 1)
  }

  /** In a list without repeated keys the first occurrence is the only one. */
  lemma FindDistinct<K>(keys: seq<K>, i: nat)
    requires Distinct(keys) && i < |keys|
    ensures FindValue(keys, keys[i]) == Some(i)
  {
  }

  /** The finite map an association list stands for. */
  function Abstract<K(==), V>(m: Map<K, V>): (a: map<K, V>)
    requires Valid(m)
    ensures a.Keys == set k | k in m.keys
  {
    map k | k in m.keys :: m.values[FindValue(m.keys, k).value]
  }

  /** Each stored key maps to the value at its position. */
  lemma AbstractAt<K, V>(m: Map<K, V>, i: nat)
    requires Valid(m) && i < |m.keys|
    ensures m.keys[i] in Abstract(m) && Abstract(m)[m.keys[i]] == m.values[i]
  {
    FindDistinct(m.keys, i);
  }

  /** `Map::new`: the map holding the one pair. */
  function New<K(==), V>(key: K, val: V): (m: Map<K, V>)
    ensures Valid(m)
    ensures Abstract(m) == map[key := val]
  {
    var m := Map([key], [val], 1);
    AbstractAt(m, 0);
    m
  }

  /** `insert`: refused with `RepeatedKey` when the key is present; otherwise
      the pair is appended and the counter goes up by one. */
  function Insert<K(==), V>(m: Map<K, V>, key: K, val: V): (r: Result<Map<K, V>, MapError>)
    requires Valid(m)
    ensures r.Err? <==> key in m.keys
    ensures r.Err? ==> r.error == RepeatedKey
    ensures r.Ok? ==> Valid(r.value) && r.value.len == m.len + 1
    ensures r.Ok? ==> r.value.keys == m.keys + [key] && r.value.values == m.values + [val]
  {
    if key in m.keys then Err(RepeatedKey)
    else Ok(Map(m.keys + [key], m.values + [val], m.len + 1))
  }

  /** A successful insert adds the pair to the represented map. */
  lemma InsertRefines<K, V>(m: Map<K, V>, key: K, val: V)
    requires Valid(m) && key !in m.keys
    ensures Insert(m, key, val).Ok?
    ensures Abstract(Insert(m, key, val).value) == Abstract(m)[key := val]
  {
    var m' := Insert(m, key, val).value;
    var a, a' := Abstract(m), Abstract(m');
    forall k | k in a'
      ensures k in a[key := val] && a'[k] == a[key := val][k]
    {
      var i :| 0 <= i < |m'.keys| && m'.keys[i] == k;
      AbstractAt(m', i);
      if i < |m.keys| {
        AbstractAt(m, i);
      }
    }
    assert a'.Keys == a[key := val].Keys;
  }

  /** `delete`: refused with `NoKey` when the key is absent; otherwise the
      pair at the key's position leaves both vectors, the others keep their
      order, and the counter goes down by one. */
  function Delete<K(==), V>(m: Map<K, V>, key: K): (r: Result<Map<K, V>, MapError>)
    requires Valid(m)
    ensures r.Err? <==> key !in m.keys
    ensures r.Err? ==> r.error == NoKey
    ensures r.Ok? ==> Valid(r.value) && r.value.len == m.len - 1
    ensures r.Ok? ==> exists i | 0 <= i < |m.keys| && m.keys[i] == key ::
      r.value.keys == m.keys[..i] + m.keys[i + 1..] && r.value.values == m.values[..i] + m.values[i + 1..]
  {
    match FindValue(m.keys, key)
    case None => Err(NoKey)
    case Some(x) =>
      var keys := m.keys[..x] + m.keys[x + 1..];
      RemoveDistinct(m.keys, x);
      Ok(Map(keys, m.values[..x] + m.values[x + 1..], m.len - 1))
  }

  /** Removing one entry keeps the rest free of repeats. */
  lemma RemoveDistinct<K>(s: seq<K>, x: nat)
    requires Distinct(s) && x < |s|
    ensures Distinct(s[..x] + s[x + 1..])
  {
    var t := s[..x] + s[x + 1..];
    forall i, j | 0 <= i < j < |t|
      ensures t[i] != t[j]
    {
      var i' := if i < x then i else i + 1;
      var j' := if j < x then j else j + 1;
      assert t[i] == s[i'] && t[j] == s[j'];
    }
  }

  /** Position `i` of the map left by a delete holds the pair from position
      `i` of the old map, or from `i + 1` once past the deleted one. */
  lemma DeleteShift<K, V>(m: Map<K, V>, key: K, i: nat)
    requires Valid(m) && key in m.keys
    requires i < |Delete(m, key).value.keys|
    ensures var x := FindValue(m.keys, key).value;
      var i' := if i < x then i else i + 1;
      Delete(m, key).value.keys[i] == m.keys[i'] && Delete(m, key).value.values[i] == m.values[i']
  {
  }

  /** Every pair left by a delete was in the map before, under another key. */
  lemma DeleteKeeps<K, V>(m: Map<K, V>, key: K, i: nat)
    requires Valid(m) && key in m.keys
    requires i < |Delete(m, key).value.keys|
    ensures var k := Delete(m, key).value.keys[i];
      k != key && k in Abstract(m) && Abstract(Delete(m, key).value)[k] == Abstract(m)[k]
  {
    var m' := Delete(m, key).value;
    var x := FindValue(m.keys, key).value;
    var i' := if i < x then i else i + 1;
    DeleteShift(m, key, i);
    AbstractAt(m', i);
    AbstractAt(m, i');
    FindDistinct(m.keys, i');
  }

  /** Every other key survives a delete. */
  lemma DeleteCovers<K, V>(m: Map<K, V>, key: K, i: nat)
    requires Valid(m) && key in m.keys
    requires i < |m.keys| && m.keys[i] != key
    ensures m.keys[i] in Delete(m, key).value.keys
  {
    var x := FindValue(m.keys, key).value;
    assert i != x;
    var i' := if i < x then i else i - 1;
    DeleteShift(m, key, i');
  }

  /** A successful delete removes the key from the represented map. */
  lemma DeleteRefines<K, V>(m: Map<K, V>, key: K)
    requires Valid(m) && key in m.keys
    ensures Delete(m, key).Ok?
    ensures Abstract(Delete(m, key).value) == Abstract(m) - {key}
  {
    DeleteSub(m, key);
    DeleteSuper(m, key);
    SameMap(Abstract(Delete(m, key).value), Abstract(m) - {key});
  }

  /** Two maps with the same keys and the same value at each are equal. */
  lemma SameMap<K, V>(a: map<K, V>, b: map<K, V>)
    requires forall k | k in a :: k in b && a[k] == b[k]
    requires forall k | k in b :: k in a
    ensures a == b
  {
    assert a.Keys == b.Keys;
  }

  lemma DeleteSub<K, V>(m: Map<K, V>, key: K)
    requires Valid(m) && key in m.keys
    ensures forall k | k in Abstract(Delete(m, key).value) ::
      k in Abstract(m) - {key} && Abstract(Delete(m, key).value)[k] == (Abstract(m) - {key})[k]
  {
    var m' := Delete(m, key).value;
    forall k | k in Abstract(m')
      ensures k in Abstract(m) - {key} && Abstract(m')[k] == (Abstract(m) - {key})[k]
    {
      var i :| 0 <= i < |m'.keys| && m'.keys[i] == k;
      DeleteKeeps(m, key, i);
    }
  }

  lemma DeleteSuper<K, V>(m: Map<K, V>, key: K)
    requires Valid(m) && key in m.keys
    ensures forall k | k in Abstract(m) - {key} :: k in Abstract(Delete(m, key).value)
  {
    forall k | k in Abstract(m) - {key}
      ensures k in Abstract(Delete(m, key).value)
    {
      var i :| 0 <= i < |m.keys| && m.keys[i] == k;
      DeleteCovers(m, key, i);
    }
  }

  /** `get_value`: the value stored with `key`, or `None`. */
  function GetValue<K(==), V>(m: Map<K, V>, key: K): (r: Option<V>)
    requires Valid(m)
    ensures r.None? <==> key !in m.keys
    ensures r.Some? ==> exists i | 0 <= i < |m.keys| :: m.keys[i] == key && m.values[i] == r.value
  {
    match FindValue(m.keys, key)
    case None => None
    case Some(i) => Some(m.values[i])
  }

  /** Looking a key up agrees with the represented map. */
  lemma GetValueRefines<K, V>(m: Map<K, V>, key: K)
    requires Valid(m)
    ensures GetValue(m, key) == if key in Abstract(m) then Some(Abstract(m)[key]) else None
  {
  }

  /** `keys`, `values` and `len`: the stored vectors and the counter, which
      on a valid map counts the pairs. */
  lemma LenCountsPairs<K, V>(m: Map<K, V>)
    requires Valid(m)
    ensures m.len == |m.keys| == |m.values| == |Abstract(m)|
  {
    var ks := set k | k in m.keys;
    assert Abstract(m).Keys == ks;
    DistinctCard(m.keys);
  }

  lemma {:induction false} DistinctCard<K>(s: seq<K>)
    requires Distinct(s)
    ensures |set k | k in s| == |s|
    decreases |s|
  {
    if s != [] {
      var t := s[..|s| - 1];
      var x := s[|s| - 1];
      assert Distinct(t);
      DistinctCard(t);
      assert (set k | k in s) == (set k | k in t) + {x};
      assert x !in t;
    }
  }

  /** `Map::from`: `DifferentLenght` when the two vectors differ in length.
      Otherwise the first pair starts the map and the loop inserts the
      rest, dropping a pair whose key is already present. The loop
      `swap_remove`s index `i` from a vector that shrinks by one each
      round, so it panics for an empty input and for three or more pairs;
      the precondition excludes exactly those panics. */
  function From<K(==), V>(keys: seq<K>, values: seq<V>): (r: Result<Map<K, V>, MapError>)
    requires |keys| == |values| ==> 1 <= |keys| <= 2
    ensures r.Err? <==> |keys| != |values|
    ensures r.Err? ==> r.error == DifferentLenght
    ensures r.Ok? ==> Valid(r.value) && (set k | k in r.value.keys) == set k | k in keys
    ensures r.Ok? ==> forall i | 0 <= i < |keys| ::
      GetValue(r.value, keys[i]) == Some(values[FindValue(keys, keys[i]).value])
  {
    if |keys| != |values| then Err(DifferentLenght)
    else
      var m := New(keys[0], values[0]);
      if |keys| == 1 then Ok(m)
      else match Insert(m, keys[1], values[1])
        case Ok(m') => Ok(m')
        case Err(_) => Ok(m)
  }

  /** The maps the `basics` test passes through. */
  const ZeroOne: Map<string, int> := Map(["zero", "one"], [0, 1], 2)
  const ZeroOneFoo: Map<string, int> := Map(["zero", "one", "foo"], [0, 1, 100], 3)

  lemma BasicsInserts()
    ensures Insert(New("zero", 0), "one", 1) == Ok(ZeroOne)
    ensures Insert(ZeroOne, "foo", 100) == Ok(ZeroOneFoo)
  {
    assert "one"[0] != "zero"[0] && "foo"[0] != "zero"[0] && "foo"[0] != "one"[0];
    assert New("zero", 0).keys + ["one"] == ["zero", "one"];
    assert New("zero", 0).values + [1] == [0, 1];
    assert ZeroOne.keys + ["foo"] == ["zero", "one", "foo"];
    assert ZeroOne.values + [100] == [0, 1, 100];
  }

  lemma BasicsDelete()
    ensures Valid(ZeroOneFoo) && Delete(ZeroOneFoo, "foo") == Ok(ZeroOne)
  {
    assert FindValue(ZeroOneFoo.keys, "foo") == Some(2);
    assert ZeroOneFoo.keys[..2] + ZeroOneFoo.keys[3..] == ["zero", "one"];
    assert ZeroOneFoo.values[..2] + ZeroOneFoo.values[3..] == [0, 1];
  }

  lemma BasicsQueries()
    ensures Valid(ZeroOne)
    ensures GetValue(ZeroOne, "foo") == None && GetValue(ZeroOne, "one") == Some(1)
    ensures Insert(ZeroOne, "one", 40) == Err(RepeatedKey) && Delete(ZeroOne, "xyz") == Err(NoKey)
  {
    assert "foo" !in ZeroOne.keys && "xyz" !in ZeroOne.keys;
    assert FindValue(ZeroOne.keys, "one") == Some(1);
  }

  /** The `basics` test: two inserts, a delete, then lookups, a repeated
      insert and a delete of a missing key. */
  lemma BasicsScenario()
    ensures Insert(New("zero", 0), "one", 1).Ok?
    ensures Insert(Insert(New("zero", 0), "one", 1).value, "foo", 100).Ok?
    ensures Delete(Insert(Insert(New("zero", 0), "one", 1).value, "foo", 100).value, "foo").Ok?
    ensures var m := Delete(Insert(Insert(New("zero", 0), "one", 1).value, "foo", 100).value, "foo").value;
      GetValue(m, "foo") == None && GetValue(m, "one") == Some(1)
      && Insert(m, "one", 40) == Err(RepeatedKey) && Delete(m, "xyz") == Err(NoKey)
  {
    BasicsInserts();
    BasicsDelete();
    BasicsQueries();
  }
}
