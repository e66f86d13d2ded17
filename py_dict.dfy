/** A Python `dict` as its list of (key, value) entries in insertion order:
    assigning to a new key appends an entry; assigning to a key already
    present replaces its value and keeps its position. */
module PyDict {
  import opened Wrappers

  type Dict<K, V> = seq<(K, V)>

  function Keys<K, V>(d: Dict<K, V>): seq<K> {
    seq(|d|, i requires 0 <= i < |d| => d[i].0)
  }

  predicate Distinct<K(==)>(ks: seq<K>) {
    forall i, j :: 0 <= i < j < |ks| ==> ks[i] != ks[j]
  }

  lemma {:induction false} DistinctCons<K>(x: K, xs: seq<K>)
    ensures Distinct([x] + xs) <==> x !in xs && Distinct(xs)
  {
    var ys := [x] + xs;
    if x !in xs && Distinct(xs) {
      forall i, j | 0 <= i < j < |ys| ensures ys[i] != ys[j] {
        assert ys[j] == xs[j - 1];
        if i > 0 { assert ys[i] == xs[i - 1]; }
      }
    }
    if Distinct(ys) {
      forall i, j | 0 <= i < j < |xs| ensures xs[i] != xs[j] {
        assert ys[i + 1] == xs[i] && ys[j + 1] == xs[j];
      }
      forall j | 0 <= j < |xs| ensures xs[j] != x {
        assert ys[0] == x && ys[j + 1] == xs[j] && ys[0] != ys[j + 1];
      }
    }
  }

  /** `d[k]`, or None when `k` is not a key. */
  function Get<K(==), V>(d: Dict<K, V>, k: K): (r: Option<V>)
    ensures r.None? <==> k !in Keys(d)
  {
    assert d != [] ==> Keys(d) == [d[0].0] + Keys(d[1..]);
    if d == [] then None
    else if d[0].0 == k then Some(d[0].1)
    else Get(d[1..], k)
  }

  /** `d[k] = v`. */
  function Put<K(==), V>(d: Dict<K, V>, k: K, v: V): Dict<K, V> {
    if d == [] then [(k, v)]
    else if d[0].0 == k then [(k, v)] + d[1..]
    else [d[0]] + Put(d[1..], k, v)
  }

  /** After `d[k] = v`, `k` holds `v` and every other key what it held. */
  lemma {:induction false} PutGet<K, V>(d: Dict<K, V>, k: K, v: V)
    ensures Get(Put(d, k, v), k) == Some(v)
    ensures forall k' :: k' != k ==> Get(Put(d, k, v), k') == Get(d, k')
    decreases |d|
  {
    if d != [] && d[0].0 != k {
      PutGet(d[1..], k, v);
      assert Put(d, k, v)[1..] == Put(d[1..], k, v);
    }
  }

  /** A new key is appended at the end; an existing key keeps its place, so
      the keys are those of `d` plus `k`, and stay distinct. */
  lemma {:induction false} PutKeys<K, V>(d: Dict<K, V>, k: K, v: V)
    ensures k !in Keys(d) ==> Put(d, k, v) == d + [(k, v)]
    ensures k in Keys(d) ==> Keys(Put(d, k, v)) == Keys(d)
    ensures forall k' :: k' in Keys(Put(d, k, v)) <==> k' == k || k' in Keys(d)
    ensures Distinct(Keys(d)) ==> Distinct(Keys(Put(d, k, v)))
    decreases |d|
  {
    if d != [] {
      assert Keys(d) == [d[0].0] + Keys(d[1..]);
      var r := Put(d, k, v);
      if d[0].0 == k {
        assert Keys(r) == [k] + Keys(d[1..]);
      } else {
        PutKeys(d[1..], k, v);
        assert r[1..] == Put(d[1..], k, v);
        assert Keys(r) == [d[0].0] + Keys(Put(d[1..], k, v));
        DistinctCons(d[0].0, Keys(d[1..]));
        DistinctCons(d[0].0, Keys(Put(d[1..], k, v)));
      }
    } else {
      assert Keys(Put(d, k, v)) == [k];
    }
  }

  /** The dictionary a loop builds by `d[ks[i]] = vs[i]` for i in order. */
  function Fill<K(==), V>(ks: seq<K>, vs: seq<V>): Dict<K, V>
    requires |ks| == |vs|
  {
    if ks == [] then []
    else Put(Fill(ks[..|ks| - 1], vs[..|vs| - 1]), ks[|ks| - 1], vs[|vs| - 1])
  }

  function Zip<K, V>(ks: seq<K>, vs: seq<V>): (r: Dict<K, V>)
    requires |ks| == |vs|
  {
    seq(|ks|, i requires 0 <= i < |ks| => (ks[i], vs[i]))
  }

  /** With distinct keys every assignment appends: one entry per assignment,
      in assignment order. */
  lemma {:induction false} FillDistinct<K, V>(ks: seq<K>, vs: seq<V>)
    requires |ks| == |vs| && Distinct(ks)
    ensures Fill(ks, vs) == Zip(ks, vs)
    ensures |Fill(ks, vs)| == |ks| && Keys(Fill(ks, vs)) == ks
    decreases |ks|
  {
    if ks != [] {
      var n := |ks| - 1;
      FillDistinct(ks[..n], vs[..n]);
      var d := Fill(ks[..n], vs[..n]);
      assert Keys(d) == ks[..n];
      PutKeys(d, ks[n], vs[n]);
      forall i | 0 <= i < n ensures ks[..n][i] != ks[n] {
        assert ks[..n][i] == ks[i];
      }
      assert Fill(ks, vs) == d + [(ks[n], vs[n])];
      assert Zip(ks, vs) == Zip(ks[..n], vs[..n]) + [(ks[n], vs[n])];
      assert Keys(Zip(ks, vs)) == ks;
    }
  }

  /** Whatever the keys, the result has distinct keys, exactly the keys
      assigned. */
  lemma {:induction false} FillKeys<K, V>(ks: seq<K>, vs: seq<V>)
    requires |ks| == |vs|
    ensures Distinct(Keys(Fill(ks, vs)))
    ensures forall k :: k in Keys(Fill(ks, vs)) <==> k in ks
    decreases |ks|
  {
    if ks != [] {
      var n := |ks| - 1;
      FillKeys(ks[..n], vs[..n]);
      PutKeys(Fill(ks[..n], vs[..n]), ks[n], vs[n]);
      assert ks == ks[..n] + [ks[n]];
    }
  }

  /** Position `i` is the last assignment to its key. */
  ghost predicate LastAt<K>(ks: seq<K>, i: int) {
    0 <= i < |ks| && forall j :: i < j < |ks| ==> ks[j] != ks[i]
  }

  /** Whatever the keys, each key holds the value of its last assignment. */
  lemma {:induction false} FillLastWins<K, V>(ks: seq<K>, vs: seq<V>)
    requires |ks| == |vs|
    ensures forall i :: LastAt(ks, i) ==> Get(Fill(ks, vs), ks[i]) == Some(vs[i])
    decreases |ks|
  {
    if ks != [] {
      var n := |ks| - 1;
      FillLastWins(ks[..n], vs[..n]);
      var d := Fill(ks[..n], vs[..n]);
      PutGet(d, ks[n], vs[n]);
      forall i | LastAt(ks, i)
        ensures Get(Fill(ks, vs), ks[i]) == Some(vs[i])
      {
        if i < n {
          assert ks[..n][i] == ks[i] && vs[..n][i] == vs[i];
          assert LastAt(ks[..n], i);
          assert ks[n] != ks[i];
        }
      }
    }
  }
}
