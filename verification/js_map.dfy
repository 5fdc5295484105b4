/** JavaScript's `Map` as the client uses it: `set` on a present key
    replaces the value and keeps the key in its place, `set` on a new key
    appends it, and `Array.from(map.values())` lists the values in key
    order. A map is its entry list. */
module JsMap {
  import opened Seqs

  function Keys<K, V>(m: seq<(K, V)>): (ks: seq<K>)
    ensures |ks| == |m|
    ensures forall i :: 0 <= i < |m| ==> ks[i] == m[i].0
  {
    seq(|m|, i requires 0 <= i < |m| => m[i].0)
  }

  /** `Array.from(map.values())`. */
  function Values<K, V>(m: seq<(K, V)>): (vs: seq<V>)
    ensures |vs| == |m|
    ensures forall i :: 0 <= i < |m| ==> vs[i] == m[i].1
  {
    seq(|m|, i requires 0 <= i < |m| => m[i].1)
  }

  /** `map.set(k, v)`. */
  function Put<K(==), V>(m: seq<(K, V)>, k: K, v: V): (r: seq<(K, V)>)
    ensures k in Keys(m) ==> |r| == |m|
    ensures k !in Keys(m) ==> |r| == |m| + 1 && r[|m|] == (k, v)
    ensures forall i :: 0 <= i < |m| ==> r[i] == (if m[i].0 == k then (k, v) else m[i])
  {
    if k in Keys(m) then seq(|m|, i requires 0 <= i < |m| => if m[i].0 == k then (k, v) else m[i])
    else
      assert forall i :: 0 <= i < |m| ==> m[i].0 != k by {
        forall i | 0 <= i < |m| ensures m[i].0 != k {
          assert Keys(m)[i] == m[i].0;
        }
      }
      m + [(k, v)]
  }

  /** The value of the last entry with key `k`. */
  function LastValue<K(==), V>(es: seq<(K, V)>, k: K): V
    requires k in Keys(es)
    decreases |es|
  {
    var n := |es| - 1;
    if es[n].0 == k then es[n].1
    else
      assert Keys(es) == Keys(es[..n]) + [es[n].0];
      LastValue(es[..n], k)
  }

  /** `new Map()` followed by one `set` per entry, in order: each key once,
      at the place of its first entry, with the value of its last. */
  function Build<K(==,!new), V>(es: seq<(K, V)>): (m: seq<(K, V)>)
    ensures Keys(m) == Dedup(Keys(es))
    ensures forall i :: 0 <= i < |m| ==> m[i].0 in Keys(es) && m[i].1 == LastValue(es, m[i].0)
    decreases |es|
  {
    if |es| == 0 then []
    else
      var n := |es| - 1;
      var init, e := es[..n], es[n];
      assert es == init + [e];
      var prev := Build(init);
      var m := Put(prev, e.0, e.1);
      KeysSnoc(init, e);
      PutKeys(prev, e.0, e.1);
      DedupSnoc(Keys(init), e.0);
      assert forall i :: 0 <= i < |m| ==> m[i].0 in Keys(es) && m[i].1 == LastValue(es, m[i].0) by {
        forall i | 0 <= i < |m| ensures m[i].0 in Keys(es) && m[i].1 == LastValue(es, m[i].0) {
          if i < |prev| {
            assert prev[i].0 in Keys(init);
          }
          LastValueSnoc(init, e, m[i].0);
        }
      }
      m
  }

  lemma KeysSnoc<K, V>(es: seq<(K, V)>, e: (K, V))
    ensures Keys(es + [e]) == Keys(es) + [e.0]
  {
  }

  lemma PutKeys<K, V>(m: seq<(K, V)>, k: K, v: V)
    ensures Keys(Put(m, k, v)) == if k in Keys(m) then Keys(m) else Keys(m) + [k]
  {
  }

  /** The value of a key after one more entry. */
  lemma LastValueSnoc<K, V>(es: seq<(K, V)>, e: (K, V), k: K)
    requires k in Keys(es) || k == e.0
    ensures k in Keys(es + [e])
    ensures LastValue(es + [e], k) == if k == e.0 then e.1 else LastValue(es, k)
  {
    KeysSnoc(es, e);
    assert (es + [e])[..|es|] == es;
  }

  /** Every key of the entries appears exactly once among the map's keys. */
  lemma BuildKeysOnce<K(!new), V>(es: seq<(K, V)>)
    ensures NoDup(Keys(Build(es)))
    ensures forall k :: k in Keys(Build(es)) <==> k in Keys(es)
  {
  }

  /** Later entries never move the keys earlier ones placed: the keys of
      the first batch lead, in their own order. */
  lemma {:induction false} BuildConcat<K(!new), V>(a: seq<(K, V)>, b: seq<(K, V)>)
    ensures Keys(Build(a)) <= Keys(Build(a + b))
  {
    var ka, kb := Keys(a), Keys(b);
    assert Keys(a + b) == ka + kb;
    DedupPrefix(ka, kb);
    assert Keys(Build(a)) == Dedup(ka);
    assert Keys(Build(a + b)) == Dedup(ka + kb);
  }

  /** The value a key ends up with comes from the later batch whenever
      that batch sets the key at all. */
  lemma {:induction false} LastValueConcat<K, V>(a: seq<(K, V)>, b: seq<(K, V)>, k: K)
    requires k in Keys(b)
    ensures k in Keys(a + b)
    ensures LastValue(a + b, k) == LastValue(b, k)
    decreases |b|
  {
    var n := |b| - 1;
    assert Keys(a + b) == Keys(a) + Keys(b);
    assert (a + b)[..|a + b| - 1] == a + b[..n];
    assert (a + b)[|a + b| - 1] == b[n];
    if b[n].0 != k {
      assert Keys(b) == Keys(b[..n]) + [b[n].0];
      LastValueConcat(a, b[..n], k);
    }
  }

  /** Entries for other keys do not change the value a key ends up with. */
  lemma {:induction false} LastValueSkip<K, V>(a: seq<(K, V)>, b: seq<(K, V)>, k: K)
    requires k in Keys(a) && k !in Keys(b)
    ensures k in Keys(a + b)
    ensures LastValue(a + b, k) == LastValue(a, k)
    decreases |b|
  {
    assert Keys(a + b) == Keys(a) + Keys(b);
    if |b| > 0 {
      var n := |b| - 1;
      assert (a + b)[..|a + b| - 1] == a + b[..n];
      assert Keys(b)[n] == b[n].0;
      assert Keys(b) == Keys(b[..n]) + [b[n].0];
      LastValueSkip(a, b[..n], k);
    } else {
      assert a + b == a;
    }
  }

  /** The value a key ends up with is the value of one of its entries. */
  lemma {:induction false} LastValueIsEntry<K, V>(es: seq<(K, V)>, k: K)
    requires k in Keys(es)
    ensures exists i :: 0 <= i < |es| && es[i] == (k, LastValue(es, k))
    decreases |es|
  {
    var n := |es| - 1;
    if es[n].0 != k {
      assert Keys(es) == Keys(es[..n]) + [es[n].0];
      LastValueIsEntry(es[..n], k);
      var i :| 0 <= i < n && es[..n][i] == (k, LastValue(es[..n], k));
      assert es[i] == es[..n][i];
    }
  }
}
