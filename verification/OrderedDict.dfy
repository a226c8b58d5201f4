/** A dictionary that remembers the order its keys first came in. */
module OrderedDict {

  type Dict<K, V> = seq<(K, V)>

  predicate Distinct<K(==), V>(d: Dict<K, V>) {
    forall i, j | 0 <= i < j < |d| :: d[i].0 != d[j].0
  }

  /** Position of a key, or the length. */
  function Find<K(==), V>(d: Dict<K, V>, k: K): (i: nat)
    ensures i <= |d|
    ensures i < |d| ==> d[i].0 == k
    ensures forall j | 0 <= j < i :: d[j].0 != k
  {
    if d == [] || d[0].0 == k then 0
    else
      var i := 1 + Find(d[1..], k);
      assert forall j | 1 <= j < i :: d[j] == d[1..][j - 1];
      i
  }

  predicate Has<K(==), V>(d: Dict<K, V>, k: K) {
    Find(d, k) < |d|
  }

  function At<K(==), V>(d: Dict<K, V>, k: K): V
    requires Has(d, k)
  {
    d[Find(d, k)].1
  }

  /** Assignment: an existing key keeps its place, a new one goes last. */
  function Put<K(==), V>(d: Dict<K, V>, k: K, v: V): Dict<K, V> {
    if Has(d, k) then d[Find(d, k) := (k, v)] else d + [(k, v)]
  }

  /** `dict.update`. */
  function PutAll<K(==), V>(d: Dict<K, V>, more: Dict<K, V>): Dict<K, V>
    decreases |more|
  {
    if more == [] then d else PutAll(Put(d, more[0].0, more[0].1), more[1..])
  }

  /** Dictionary equality, which ignores order. */
  predicate Same<K(==), V(==)>(a: Dict<K, V>, b: Dict<K, V>) {
    && (forall i | 0 <= i < |a| :: Has(b, a[i].0) && At(b, a[i].0) == At(a, a[i].0))
    && (forall i | 0 <= i < |b| :: Has(a, b[i].0))
  }

  lemma HasIff<K, V>(d: Dict<K, V>, k: K)
    ensures Has(d, k) <==> exists i | 0 <= i < |d| :: d[i].0 == k
  {
  }

  lemma AtIs<K, V>(d: Dict<K, V>, i: nat)
    requires Distinct(d) && i < |d|
    ensures Has(d, d[i].0) && Find(d, d[i].0) == i && At(d, d[i].0) == d[i].1
  {
  }

  lemma SameIff<K, V>(a: Dict<K, V>, b: Dict<K, V>)
    ensures Same(a, b) <==> forall k :: Has(a, k) == Has(b, k) && (Has(a, k) ==> At(a, k) == At(b, k))
  {
  }

  lemma PutWorks<K, V>(d: Dict<K, V>, k: K, v: V)
    ensures Has(Put(d, k, v), k) && At(Put(d, k, v), k) == v
    ensures forall l | l != k :: Has(Put(d, k, v), l) == Has(d, l) && (Has(d, l) ==> At(Put(d, k, v), l) == At(d, l))
    ensures Distinct(d) ==> Distinct(Put(d, k, v))
  {
    var r := Put(d, k, v);
    HasIff(r, k);
    if Has(d, k) {
      assert r[Find(d, k)] == (k, v);
      assert Find(r, k) == Find(d, k);
    } else {
      assert r[|d|] == (k, v);
      assert Find(r, k) == |d|;
    }
    forall l | l != k ensures Has(r, l) == Has(d, l) && (Has(d, l) ==> At(r, l) == At(d, l)) {
      if Has(d, l) {
        assert r[Find(d, l)] == d[Find(d, l)];
        assert Find(r, l) == Find(d, l);
      }
    }
  }

  lemma HasTail<K, V>(d: Dict<K, V>, k: K)
    requires Distinct(d) && d != []
    ensures Distinct(d[1..]) && !Has(d[1..], d[0].0)
    ensures k != d[0].0 ==> Has(d, k) == Has(d[1..], k) && (Has(d, k) ==> At(d, k) == At(d[1..], k))
  {
    assert forall i | 0 <= i < |d| - 1 :: d[1..][i] == d[i + 1];
  }

  /** After an update every new key has its new value and every other key its old one. */
  lemma {:induction false} PutAllWorks<K, V>(d: Dict<K, V>, more: Dict<K, V>)
    requires Distinct(more)
    ensures forall k :: Has(PutAll(d, more), k) == (Has(d, k) || Has(more, k))
    ensures forall k | Has(more, k) :: At(PutAll(d, more), k) == At(more, k)
    ensures forall k | Has(d, k) && !Has(more, k) :: At(PutAll(d, more), k) == At(d, k)
    ensures Distinct(d) ==> Distinct(PutAll(d, more))
    decreases |more|
  {
    if more != [] {
      hide Put, Has, At, Distinct;
      var (k0, v0) := more[0];
      var d1, rest := Put(d, k0, v0), more[1..];
      PutWorks(d, k0, v0);
      HasTail(more, k0);
      AtIs(more, 0);
      PutAllWorks(d1, rest);
      forall k
        ensures Has(PutAll(d, more), k) == (Has(d, k) || Has(more, k))
        ensures Has(more, k) ==> At(PutAll(d, more), k) == At(more, k)
        ensures Has(d, k) && !Has(more, k) ==> At(PutAll(d, more), k) == At(d, k)
      {
        HasTail(more, k);
      }
    } else {
      assert forall k :: !Has(more, k);
    }
  }

  lemma PutAgain<K, V>(d: Dict<K, V>, k: K, v: V)
    requires Has(d, k) && At(d, k) == v
    ensures Put(d, k, v) == d
  {
  }

  lemma {:induction false} PutAllPresent<K, V>(d: Dict<K, V>, more: Dict<K, V>)
    requires Distinct(more) && forall k | Has(more, k) :: Has(d, k) && At(d, k) == At(more, k)
    ensures PutAll(d, more) == d
    decreases |more|
  {
    if more != [] {
      AtIs(more, 0);
      PutAgain(d, more[0].0, more[0].1);
      forall k | Has(more[1..], k) ensures Has(d, k) && At(d, k) == At(more[1..], k) {
        HasTail(more, k);
      }
      HasTail(more, more[0].0);
      PutAllPresent(d, more[1..]);
    }
  }

  /** Updating twice with the same entries changes nothing the second time, order included. */
  lemma PutAllTwice<K, V>(d: Dict<K, V>, more: Dict<K, V>)
    requires Distinct(more)
    ensures PutAll(PutAll(d, more), more) == PutAll(d, more)
  {
    PutAllWorks(d, more);
    PutAllPresent(PutAll(d, more), more);
  }
}
