/**
 The own entries of a plain JavaScript object with non-index string keys, in
 the order `Object.entries` reports them: insertion order, where assigning to
 an existing key keeps its position and `delete` removes it. The background
 script's frame table is such an object, and the order matters there because
 widget tracking binds the FIRST matching frame.
 */
module Ordered {
  import opened Base

  type Entries<K, V> = seq<(K, V)>

  /** The keys present. */
  function Keys<K, V>(m: Entries<K, V>): set<K> {
    set i | 0 <= i < |m| :: m[i].0
  }

  /** No key occurs twice, as in every JavaScript object. */
  predicate DistinctKeys<K(==), V>(m: Entries<K, V>) {
    forall i, j :: 0 <= i < j < |m| ==> m[i].0 != m[j].0
  }

  /** How the keys and their distinctness split over the first entry. */
  lemma Cons<K, V>(x: (K, V), t: Entries<K, V>)
    ensures ([x] + t)[1..] == t
    ensures Keys([x] + t) == {x.0} + Keys(t)
    ensures DistinctKeys([x] + t) <==> x.0 !in Keys(t) && DistinctKeys(t)
  {
    assert ([x] + t)[1..] == t;
    ConsKeys(x, t);
    ConsDistinct(x, t);
  }

  lemma ConsKeys<K, V>(x: (K, V), t: Entries<K, V>)
    ensures Keys([x] + t) == {x.0} + Keys(t)
  {
    var m := [x] + t;
    forall y | y in Keys(m) ensures y in {x.0} + Keys(t) {
      var i :| 0 <= i < |m| && m[i].0 == y;
      if i > 0 { assert t[i - 1] == m[i]; }
    }
    forall y | y in {x.0} + Keys(t) ensures y in Keys(m) {
      if y == x.0 {
        assert m[0].0 == y;
      } else {
        var i :| 0 <= i < |t| && t[i].0 == y;
        assert m[i + 1] == t[i];
      }
    }
  }

  lemma ConsDistinct<K, V>(x: (K, V), t: Entries<K, V>)
    ensures DistinctKeys([x] + t) <==> x.0 !in Keys(t) && DistinctKeys(t)
  {
    var m := [x] + t;
    if DistinctKeys(m) {
      forall i, j | 0 <= i < j < |t| ensures t[i].0 != t[j].0 {
        assert m[i + 1] == t[i] && m[j + 1] == t[j];
      }
      forall i | 0 <= i < |t| ensures t[i].0 != x.0 {
        assert m[0].0 != m[i + 1].0;
        assert m[i + 1] == t[i];
      }
    }
    if x.0 !in Keys(t) && DistinctKeys(t) {
      forall i, j | 0 <= i < j < |m| ensures m[i].0 != m[j].0 {
        assert m[j] == t[j - 1];
        if i == 0 {
          assert t[j - 1].0 in Keys(t);
        } else {
          assert m[i] == t[i - 1];
        }
      }
    }
  }

  /** `obj[k]`, with `undefined` as `None`. */
  function Get<K(==), V>(m: Entries<K, V>, k: K): (r: Option<V>)
    ensures r.Some? <==> k in Keys(m)
    ensures r.Some? ==> exists i :: 0 <= i < |m| && m[i] == (k, r.value)
  {
    if m == [] then None
    else
      assert m == [m[0]] + m[1..];
      Cons(m[0], m[1..]);
      if m[0].0 == k then Some(m[0].1)
      else
        var r := Get(m[1..], k);
        assert r.Some? ==> exists i :: 0 <= i < |m| && m[i] == (k, r.value) by {
          if r.Some? {
            var i :| 0 <= i < |m[1..]| && m[1..][i] == (k, r.value);
            assert m[i + 1] == (k, r.value);
          }
        }
        r
  }

  /** In an object with distinct keys, the entry at position `i` is what `Get` finds. */
  lemma {:induction false} GetAt<K, V>(m: Entries<K, V>, i: nat)
    requires DistinctKeys(m) && i < |m|
    ensures Get(m, m[i].0) == Some(m[i].1)
  {
    if i > 0 {
      assert m[0].0 != m[i].0;
      assert m[1..][i - 1] == m[i];
      assert DistinctKeys(m[1..]);
      GetAt(m[1..], i - 1);
    }
  }

  /** `Get` on an object whose first entry is `x`. */
  lemma GetCons<K, V>(x: (K, V), t: Entries<K, V>)
    ensures forall k :: Get([x] + t, k) == if x.0 == k then Some(x.1) else Get(t, k)
  {
    assert ([x] + t)[1..] == t;
  }

  /** What `obj[k] = v` promises about the object `r` it leaves. */
  ghost predicate IsPut<K(!new), V>(m: Entries<K, V>, k: K, v: V, r: Entries<K, V>) {
    && Get(r, k) == Some(v)
    && (forall k' :: k' != k ==> Get(r, k') == Get(m, k'))
    && Keys(r) == Keys(m) + {k}
    && (k !in Keys(m) ==> r == m + [(k, v)])
    && (k in Keys(m) ==> |r| == |m| && forall i :: 0 <= i < |m| ==> r[i].0 == m[i].0)
    && (DistinctKeys(m) ==> DistinctKeys(r))
  }

  /** Assigning past an unrelated first entry. */
  lemma PutPastFirst<K(!new), V>(x: (K, V), t: Entries<K, V>, k: K, v: V, tail: Entries<K, V>)
    requires x.0 != k && IsPut(t, k, v, tail)
    ensures IsPut([x] + t, k, v, [x] + tail)
  {
    var m := [x] + t;
    var r := [x] + tail;
    assert Get(r, k) == Some(v) && forall k' :: k' != k ==> Get(r, k') == Get(m, k') by {
      GetCons(x, t);
      GetCons(x, tail);
    }
    assert Keys(r) == Keys(m) + {k} by {
      ConsKeys(x, t);
      ConsKeys(x, tail);
    }
    assert k !in Keys(m) ==> r == m + [(k, v)] by {
      if k !in Keys(m) {
        ConsKeys(x, t);
        assert r == [x] + (t + [(k, v)]);
      }
    }
    assert k in Keys(m) ==> |r| == |m| && forall i :: 0 <= i < |m| ==> r[i].0 == m[i].0 by {
      if k in Keys(m) {
        ConsKeys(x, t);
        forall i | 0 <= i < |m| ensures r[i].0 == m[i].0 {
          if i > 0 { assert r[i] == tail[i - 1] && m[i] == t[i - 1]; }
        }
      }
    }
    assert DistinctKeys(m) ==> DistinctKeys(r) by {
      ConsDistinct(x, t);
      ConsDistinct(x, tail);
    }
  }

  /** `obj[k] = v`: an existing key keeps its position, a new key goes last. */
  function Put<K(==, !new), V>(m: Entries<K, V>, k: K, v: V): (r: Entries<K, V>)
    ensures Get(r, k) == Some(v)
    ensures forall k' :: k' != k ==> Get(r, k') == Get(m, k')
    ensures Keys(r) == Keys(m) + {k}
    ensures k !in Keys(m) ==> r == m + [(k, v)]
    ensures k in Keys(m) ==> |r| == |m| && forall i :: 0 <= i < |m| ==> r[i].0 == m[i].0
    ensures DistinctKeys(m) ==> DistinctKeys(r)
  {
    if m == [] then
      Cons((k, v), []);
      GetCons((k, v), []);
      [(k, v)]
    else
      var x := m[0];
      assert m == [x] + m[1..];
      if x.0 == k then
        Cons(x, m[1..]);
        GetCons(x, m[1..]);
        Cons((k, v), m[1..]);
        GetCons((k, v), m[1..]);
        [(k, v)] + m[1..]
      else
        var tail := Put(m[1..], k, v);
        PutPastFirst(x, m[1..], k, v, tail);
        [x] + tail
  }

  /** Cutting position `j` out of the tail is cutting position `j + 1` out of the whole. */
  lemma CutPastFirst<T>(m: seq<T>, j: nat)
    requires j + 1 < |m|
    ensures [m[0]] + (m[1..][..j] + m[1..][j + 1..]) == m[..j + 1] + m[j + 2..]
  {
    assert m[..j + 1] == [m[0]] + m[1..][..j];
    assert m[j + 2..] == m[1..][j + 1..];
  }

  /** One step of `delete` on an object with distinct keys: the entry with the key is cut out. */
  lemma RemoveCons<K, V>(x: (K, V), t: Entries<K, V>, k: K, tail: Entries<K, V>)
    requires k !in Keys(t) ==> tail == t
    requires forall i :: 0 <= i < |t| && t[i].0 == k && DistinctKeys(t) ==> tail == t[..i] + t[i + 1..]
    ensures forall i :: 0 <= i < |[x] + t| && ([x] + t)[i].0 == k && DistinctKeys([x] + t) ==>
              (if x.0 == k then tail else [x] + tail) == ([x] + t)[..i] + ([x] + t)[i + 1..]
  {
    var m := [x] + t;
    Cons(x, t);
    forall i | 0 <= i < |m| && m[i].0 == k && DistinctKeys(m)
      ensures (if x.0 == k then tail else [x] + tail) == m[..i] + m[i + 1..]
    {
      if i == 0 {
        assert m[..0] + m[1..] == t;
      } else {
        assert t[i - 1] == m[i];
        CutPastFirst(m, i - 1);
      }
    }
  }

  /** `delete obj[k]`: the entry goes, every other entry stays in order. */
  function Remove<K(==, !new), V>(m: Entries<K, V>, k: K): (r: Entries<K, V>)
    ensures Get(r, k) == None
    ensures forall k' :: k' != k ==> Get(r, k') == Get(m, k')
    ensures Keys(r) == Keys(m) - {k}
    ensures |r| <= |m|
    ensures k !in Keys(m) ==> r == m
    ensures DistinctKeys(m) ==> DistinctKeys(r)
    // with distinct keys exactly the entry with the key is cut out, and the rest keep their order
    ensures forall i :: 0 <= i < |m| && m[i].0 == k && DistinctKeys(m) ==> r == m[..i] + m[i + 1..]
  {
    if m == [] then []
    else
      var x := m[0];
      assert m == [x] + m[1..];
      Cons(x, m[1..]);
      GetCons(x, m[1..]);
      var tail := Remove(m[1..], k);
      RemoveCons(x, m[1..], k, tail);
      if x.0 == k then tail
      else
        Cons(x, tail);
        GetCons(x, tail);
        [x] + tail
  }
}
