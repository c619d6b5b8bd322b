/** Python's `dict` with string keys: a map that remembers the order in which
    its keys were first inserted. Assigning to a key that is already present
    replaces its value and keeps its place. */
module OrderedDict {

  datatype Dict<V> = Dict(keys: seq<string>, vals: map<string, V>) {
    /** Every key is listed once, and the listed keys are the map's keys. */
    ghost predicate Valid() {
      && (forall i, j :: 0 <= i < j < |keys| ==> keys[i] != keys[j])
      && (forall k :: k in vals <==> k in keys)
    }
  }

  function Empty<V>(): (d: Dict<V>)
    ensures d.Valid() && d.keys == [] && d.vals == map[]
  {
    Dict([], map[])
  }

  /** `d[k] = v`. */
  function Put<V>(d: Dict<V>, k: string, v: V): (r: Dict<V>)
    requires d.Valid()
    ensures r.Valid()
    ensures r.vals == d.vals[k := v]
    ensures r.keys == if k in d.vals then d.keys else d.keys + [k]
  {
    if k in d.vals then Dict(d.keys, d.vals[k := v]) else Dict(d.keys + [k], d.vals[k := v])
  }

  /** `d.get(k, default)`. */
  function Get<V>(d: Dict<V>, k: string, default: V): V {
    if k in d.vals then d.vals[k] else default
  }

  /** Assigns the pairs of `ps` to `d`, first to last. */
  function PutAll<V>(d: Dict<V>, ps: seq<(string, V)>): (r: Dict<V>)
    requires d.Valid()
    ensures r.Valid()
    decreases |ps|
  {
    if |ps| == 0 then d
    else
      var last := ps[|ps| - 1];
      Put(PutAll(d, ps[..|ps| - 1]), last.0, last.1)
  }

  /** Some pair of `ps` has key `k`. */
  ghost predicate Written<V>(ps: seq<(string, V)>, k: string) {
    exists i :: 0 <= i < |ps| && ps[i].0 == k
  }

  /** `ps[i]` is the last pair of `ps` with key `k`. */
  ghost predicate LastWrite<V>(ps: seq<(string, V)>, k: string, i: int) {
    0 <= i < |ps| && ps[i].0 == k && forall j :: i < j < |ps| ==> ps[j].0 != k
  }

  /** After a series of assignments a key is present exactly when it was
      present before or was assigned, and the last assignment to it wins. */
  lemma {:induction false} PutAllLookup<V>(d: Dict<V>, ps: seq<(string, V)>, k: string)
    requires d.Valid()
    ensures k in PutAll(d, ps).vals <==> k in d.vals || Written(ps, k)
    ensures forall i :: LastWrite(ps, k, i) ==> PutAll(d, ps).vals[k] == ps[i].1
    ensures !Written(ps, k) && k in d.vals ==> PutAll(d, ps).vals[k] == d.vals[k]
    decreases |ps|
  {
    PutAllHas(d, ps, k);
    forall i | LastWrite(ps, k, i) ensures PutAll(d, ps).vals[k] == ps[i].1 {
      PutAllLast(d, ps, k, i);
    }
    if !Written(ps, k) && k in d.vals {
      PutAllUntouched(d, ps, k);
    }
  }

  lemma {:induction false} PutAllHas<V>(d: Dict<V>, ps: seq<(string, V)>, k: string)
    requires d.Valid()
    ensures k in PutAll(d, ps).vals <==> k in d.vals || Written(ps, k)
    decreases |ps|
  {
    if |ps| > 0 {
      var n := |ps| - 1;
      PutAllHas(d, ps[..n], k);
      WrittenSnoc(ps, k);
      assert PutAll(d, ps) == Put(PutAll(d, ps[..n]), ps[n].0, ps[n].1);
    }
  }

  lemma {:induction false} PutAllLast<V>(d: Dict<V>, ps: seq<(string, V)>, k: string, i: int)
    requires d.Valid() && LastWrite(ps, k, i)
    ensures k in PutAll(d, ps).vals && PutAll(d, ps).vals[k] == ps[i].1
    decreases |ps|
  {
    var n := |ps| - 1;
    assert PutAll(d, ps).vals == PutAll(d, ps[..n]).vals[ps[n].0 := ps[n].1];
    if i < n {
      assert LastWrite(ps[..n], k, i);
      PutAllLast(d, ps[..n], k, i);
    }
  }

  lemma {:induction false} PutAllUntouched<V>(d: Dict<V>, ps: seq<(string, V)>, k: string)
    requires d.Valid() && k in d.vals && !Written(ps, k)
    ensures k in PutAll(d, ps).vals && PutAll(d, ps).vals[k] == d.vals[k]
    decreases |ps|
  {
    if |ps| > 0 {
      var n := |ps| - 1;
      WrittenSnoc(ps, k);
      PutAllUntouched(d, ps[..n], k);
      assert PutAll(d, ps) == Put(PutAll(d, ps[..n]), ps[n].0, ps[n].1);
    }
  }

  /** Assigning `a` and then `b` is assigning `a + b`. */
  lemma {:induction false} PutAllAppend<V>(d: Dict<V>, a: seq<(string, V)>, b: seq<(string, V)>)
    requires d.Valid()
    ensures PutAll(d, a + b) == PutAll(PutAll(d, a), b)
    decreases |b|
  {
    if |b| == 0 {
      assert a + b == a;
    } else {
      var n := |b| - 1;
      PutAllAppend(d, a, b[..n]);
      assert (a + b)[..|a + b| - 1] == a + b[..n];
      assert (a + b)[|a + b| - 1] == b[n];
      assert PutAll(d, a + b) == Put(PutAll(d, a + b[..n]), b[n].0, b[n].1);
    }
  }

  /** The keys of `ps` that `d` does not have yet, in order of first
      appearance in `ps` (each listed once). */
  function NewKeys<V>(d: Dict<V>, ps: seq<(string, V)>): seq<string>
    decreases |ps|
  {
    if |ps| == 0 then []
    else
      var n := |ps| - 1;
      var earlier := NewKeys(d, ps[..n]);
      if ps[n].0 in d.vals || ps[n].0 in earlier then earlier else earlier + [ps[n].0]
  }

  lemma WrittenSnoc<V>(ps: seq<(string, V)>, k: string)
    requires |ps| > 0
    ensures Written(ps, k) <==> Written(ps[..|ps| - 1], k) || ps[|ps| - 1].0 == k
  {
    var n := |ps| - 1;
    if Written(ps, k) && ps[n].0 != k {
      var i :| 0 <= i < |ps| && ps[i].0 == k;
      assert ps[..n][i].0 == k;
    }
    if Written(ps[..n], k) {
      var i :| 0 <= i < n && ps[..n][i].0 == k;
      assert ps[i].0 == k;
    }
  }

  /** The position of the last pair of `ps` with key `k`. */
  ghost function LastWriteOf<V>(ps: seq<(string, V)>, k: string): (i: nat)
    requires Written(ps, k)
    ensures LastWrite(ps, k, i)
    decreases |ps|
  {
    var n := |ps| - 1;
    if ps[n].0 == k then n
    else
      WrittenSnoc(ps, k);
      LastWriteOf(ps[..n], k)
  }

  /** A key is listed once. */
  lemma KeyListedOnce<V>(d: Dict<V>, m: nat)
    requires d.Valid() && m < |d.keys|
    ensures d.keys[m] !in d.keys[..m]
  {
    forall j | 0 <= j < m ensures d.keys[..m][j] != d.keys[m] {
      assert d.keys[..m][j] == d.keys[j];
    }
  }

  /** Keys already present keep their places; the others are appended in the
      order of their first assignment. */
  lemma {:induction false} PutAllOrder<V>(d: Dict<V>, ps: seq<(string, V)>)
    requires d.Valid()
    ensures PutAll(d, ps).keys == d.keys + NewKeys(d, ps)
    ensures forall k :: k in NewKeys(d, ps) <==> k !in d.vals && Written(ps, k)
    decreases |ps|
  {
    if |ps| > 0 {
      var n := |ps| - 1;
      var init, p := ps[..n], ps[n];
      PutAllOrder(d, init);
      PutAllLookup(d, init, p.0);
      var before := PutAll(d, init);
      assert PutAll(d, ps) == Put(before, p.0, p.1);
      var seen := NewKeys(d, init);
      assert ps[..|ps| - 1] == init;
      assert NewKeys(d, ps) == if p.0 in d.vals || p.0 in seen then seen else seen + [p.0];
      assert p.0 in before.vals <==> p.0 in d.vals || p.0 in seen;
      if !(p.0 in d.vals || p.0 in seen) {
        assert d.keys + (seen + [p.0]) == (d.keys + seen) + [p.0];
      }
      forall k ensures k in NewKeys(d, ps) <==> k !in d.vals && Written(ps, k) {
        WrittenSnoc(ps, k);
      }
    }
  }

  /** A series of assignments adds at most one key per pair, and exactly one
      when its keys are distinct and new. */
  lemma {:induction false} PutAllSize<V>(d: Dict<V>, ps: seq<(string, V)>)
    requires d.Valid()
    ensures |PutAll(d, ps).keys| <= |d.keys| + |ps|
    ensures (forall k :: k in d.vals ==> !Written(ps, k))
            && (forall i, j :: 0 <= i < j < |ps| ==> ps[i].0 != ps[j].0)
            ==> |PutAll(d, ps).keys| == |d.keys| + |ps|
    decreases |ps|
  {
    if |ps| > 0 {
      var n := |ps| - 1;
      var init := ps[..n];
      PutAllSize(d, init);
      assert ps[..|ps| - 1] == init;
      if (forall k :: k in d.vals ==> !Written(ps, k))
         && (forall i, j :: 0 <= i < j < |ps| ==> ps[i].0 != ps[j].0) {
        forall k | k in d.vals ensures !Written(init, k) {
          WrittenSnoc(ps, k);
        }
        PutAllLookup(d, init, ps[n].0);
        assert !Written(init, ps[n].0);
        assert ps[n].0 !in d.vals by {
          assert Written(ps, ps[n].0);
        }
      }
    }
  }

  /** The pairs of `d`, in key order: `d.items()`. */
  function Items<V>(d: Dict<V>): (ps: seq<(string, V)>)
    requires d.Valid()
    ensures |ps| == |d.keys|
    ensures forall i :: 0 <= i < |ps| ==> ps[i] == (d.keys[i], d.vals[d.keys[i]])
  {
    seq(|d.keys|, i requires 0 <= i < |d.keys| => (d.keys[i], d.vals[d.keys[i]]))
  }

  /** The first `m + 1` pairs of `d` are its first `m` pairs and then pair `m`. */
  lemma ItemsTake<V>(d: Dict<V>, m: nat)
    requires d.Valid() && m < |d.keys|
    ensures Items(d)[..m + 1] == Items(d)[..m] + [(d.keys[m], d.vals[d.keys[m]])]
  {
  }

  /** Writing one more pair is one more `Put`. */
  lemma PutAllSnoc<V>(d: Dict<V>, ps: seq<(string, V)>, p: (string, V))
    requires d.Valid()
    ensures PutAll(d, ps + [p]) == Put(PutAll(d, ps), p.0, p.1)
  {
    assert (ps + [p])[..|ps|] == ps;
  }

  /** `{**a, **b}`: the keys of `a` in their order, then the keys of `b` that
      `a` lacks; on a shared key the value of `b` wins. */
  function Merge<V>(a: Dict<V>, b: Dict<V>): (r: Dict<V>)
    requires a.Valid() && b.Valid()
    ensures r.Valid()
  {
    PutAll(a, Items(b))
  }

  /** The key set of a merge is the union of the key sets, a key of `b`
      takes `b`'s value, a key only `a` has keeps `a`'s value, and the order
      is `a`'s keys followed by `b`'s new keys in `b`'s order. */
  lemma MergeLookup<V>(a: Dict<V>, b: Dict<V>)
    requires a.Valid() && b.Valid()
    ensures Merge(a, b).vals.Keys == a.vals.Keys + b.vals.Keys
    ensures forall k :: k in b.vals ==> Merge(a, b).vals[k] == b.vals[k]
    ensures forall k :: k in a.vals && k !in b.vals ==> Merge(a, b).vals[k] == a.vals[k]
    ensures Merge(a, b).keys == a.keys + NewKeys(a, Items(b))
    ensures forall k :: k in NewKeys(a, Items(b)) <==> k in b.vals && k !in a.vals
  {
    PutAllOrder(a, Items(b));
    forall k ensures k in Merge(a, b).vals <==> k in a.vals || k in b.vals {
      MergeKey(a, b, k);
    }
    forall k | k in b.vals ensures Merge(a, b).vals[k] == b.vals[k] {
      MergeKey(a, b, k);
    }
    forall k | k in a.vals && k !in b.vals ensures Merge(a, b).vals[k] == a.vals[k] {
      MergeKey(a, b, k);
    }
    forall k ensures Written(Items(b), k) <==> k in b.vals {
      MergeKey(a, b, k);
    }
  }

  /** What a merge holds under one key. */
  lemma MergeKey<V>(a: Dict<V>, b: Dict<V>, k: string)
    requires a.Valid() && b.Valid()
    ensures k in Merge(a, b).vals <==> k in a.vals || k in b.vals
    ensures k in b.vals ==> Merge(a, b).vals[k] == b.vals[k]
    ensures k in a.vals && k !in b.vals ==> Merge(a, b).vals[k] == a.vals[k]
    ensures Written(Items(b), k) <==> k in b.vals
  {
    var ps := Items(b);
    PutAllLookup(a, ps, k);
    if k in b.vals {
      var i :| 0 <= i < |b.keys| && b.keys[i] == k;
      assert LastWrite(ps, k, i);
    }
  }
}
