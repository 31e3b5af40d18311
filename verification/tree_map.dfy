/**
 `java.util.TreeMap<String, V>` as a list of key/value pairs kept in strictly
 ascending key order. The recorder's carton (path to rendered line) and the
 merge shelf (current key to carton handle) are both TreeMaps; iterating one
 visits its pairs in this list order.
 */
module TreeMap {
  import opened Lex
  import opened Wrappers

  type TreeMap<V> = seq<(string, V)>

  /** The class invariant: keys strictly ascending, hence pairwise distinct. */
  predicate Ordered<V>(m: TreeMap<V>)
  {
    forall i, j :: 0 <= i < j < |m| ==> Less(m[i].0, m[j].0)
  }

  function Keys<V>(m: TreeMap<V>): set<string>
  {
    if |m| == 0 then {} else {m[0].0} + Keys(m[1..])
  }

  /** A key is in the map exactly when some pair carries it. */
  lemma {:induction false} InKeys<V>(m: TreeMap<V>, k: string)
    ensures k in Keys(m) <==> exists i :: 0 <= i < |m| && m[i].0 == k
  {
    if |m| > 0 {
      InKeys(m[1..], k);
      if k in Keys(m[1..]) {
        var j :| 0 <= j < |m[1..]| && m[1..][j].0 == k;
        assert m[j + 1].0 == k;
      }
      if exists i :: 0 <= i < |m| && m[i].0 == k {
        var i :| 0 <= i < |m| && m[i].0 == k;
        if i > 0 {
          assert m[1..][i - 1].0 == k;
        }
      }
    }
  }

  lemma KeyAt<V>(m: TreeMap<V>, i: nat)
    requires i < |m|
    ensures m[i].0 in Keys(m)
  {
    InKeys(m, m[i].0);
  }

  lemma OrderedTail<V>(m: TreeMap<V>)
    requires Ordered(m) && |m| > 0
    ensures Ordered(m[1..])
  {
    forall i, j | 0 <= i < j < |m[1..]| ensures Less(m[1..][i].0, m[1..][j].0) {
      assert m[1..][i] == m[i + 1] && m[1..][j] == m[j + 1];
    }
  }

  /** In an ordered map the first key is below all the others. */
  lemma FirstBelowRest<V>(m: TreeMap<V>)
    requires Ordered(m) && |m| > 0
    ensures m[0].0 !in Keys(m[1..])
    ensures forall k :: k in Keys(m[1..]) ==> Less(m[0].0, k)
  {
    forall k | k in Keys(m[1..]) ensures Less(m[0].0, k) {
      InKeys(m[1..], k);
      var j :| 0 <= j < |m[1..]| && m[1..][j].0 == k;
      assert m[j + 1].0 == k;
    }
  }

  /** `m[k]`, with `None` for Kotlin's null. */
  function Get<V>(m: TreeMap<V>, k: string): (r: Option<V>)
    ensures r.Some? <==> k in Keys(m)
  {
    if |m| == 0 then None
    else if m[0].0 == k then Some(m[0].1)
    else Get(m[1..], k)
  }

  /** `m[k] = v`: replaces the value of an existing key, else inserts in key order. */
  function Put<V>(m: TreeMap<V>, k: string, v: V): (r: TreeMap<V>)
    requires Ordered(m)
    ensures Ordered(r)
    ensures Keys(r) == Keys(m) + {k}
    ensures |r| == if k in Keys(m) then |m| else |m| + 1
  {
    if |m| == 0 then [(k, v)]
    else if m[0].0 == k then
      FirstBelowRest(m);
      [(k, v)] + m[1..]
    else if Less(k, m[0].0) then
      FirstBelowRest(m);
      assert k !in Keys(m[1..]) by {
        if k in Keys(m[1..]) {
          Trichotomy(k, m[0].0);
        }
      }
      assert Ordered([(k, v)] + m) by {
        forall j | 0 < j < |m| {
          LessTransitive(k, m[0].0, m[j].0);
        }
      }
      [(k, v)] + m
    else
      Trichotomy(k, m[0].0);
      FirstBelowRest(m);
      var t := Put(m[1..], k, v);
      forall j | 0 <= j < |t| ensures Less(m[0].0, t[j].0) {
        KeyAt(t, j);
      }
      [m[0]] + t
  }

  lemma {:induction false} PutGet<V>(m: TreeMap<V>, k: string, v: V, k': string)
    requires Ordered(m)
    ensures Get(Put(m, k, v), k') == if k' == k then Some(v) else Get(m, k')
  {
    if |m| > 0 && m[0].0 != k && !Less(k, m[0].0) {
      PutGet(m[1..], k, v, k');
    }
  }

  /** `m[k] = v` keeps every other pair and adds only `(k, v)`. */
  lemma {:induction false} PutMembers<V>(m: TreeMap<V>, k: string, v: V)
    requires Ordered(m)
    ensures (k, v) in Put(m, k, v)
    ensures forall p :: p in Put(m, k, v) ==> p == (k, v) || p in m
    ensures forall p :: p in m && p.0 != k ==> p in Put(m, k, v)
  {
    if |m| > 0 && m[0].0 != k && !Less(k, m[0].0) {
      PutMembers(m[1..], k, v);
    }
  }

  /** `m.remove(k)` */
  function Remove<V>(m: TreeMap<V>, k: string): (r: TreeMap<V>)
    requires Ordered(m)
    ensures Ordered(r)
    ensures Keys(r) == Keys(m) - {k}
    ensures |r| == if k in Keys(m) then |m| - 1 else |m|
  {
    if |m| == 0 then []
    else if m[0].0 == k then
      FirstBelowRest(m);
      m[1..]
    else
      FirstBelowRest(m);
      var t := Remove(m[1..], k);
      forall j | 0 <= j < |t| ensures Less(m[0].0, t[j].0) {
        KeyAt(t, j);
      }
      [m[0]] + t
  }

  lemma {:induction false} RemoveGet<V>(m: TreeMap<V>, k: string, k': string)
    requires Ordered(m)
    ensures Get(Remove(m, k), k') == if k' == k then None else Get(m, k')
  {
    if |m| > 0 && m[0].0 != k {
      RemoveGet(m[1..], k, k');
    }
  }

  /** `m.remove(k)` keeps exactly the pairs whose key is not `k`. */
  lemma {:induction false} RemoveMembers<V>(m: TreeMap<V>, k: string)
    requires Ordered(m)
    ensures forall p :: p in Remove(m, k) <==> p in m && p.0 != k
  {
    if |m| > 0 {
      RemoveMembers(m[1..], k);
      if m[0].0 == k {
        FirstBelowRest(m);
        forall p | p in m[1..] ensures p.0 != k {
          var j :| 0 <= j < |m[1..]| && m[1..][j] == p;
          KeyAt(m[1..], j);
        }
      }
    }
  }

  /** `m.keys.min()` is the first key, and `m.remove` of it leaves the tail. */
  lemma FirstIsMin<V>(m: TreeMap<V>)
    requires Ordered(m) && |m| > 0
    ensures forall k :: k in Keys(m) && k != m[0].0 ==> Less(m[0].0, k)
    ensures Remove(m, m[0].0) == m[1..]
  {
    FirstBelowRest(m);
  }

  /** `m.keys.last()` is the last key. */
  lemma {:induction false} LastIsMax<V>(m: TreeMap<V>)
    requires Ordered(m) && |m| > 0
    ensures forall k :: k in Keys(m) && k != m[|m| - 1].0 ==> Less(k, m[|m| - 1].0)
  {
    forall k | k in Keys(m) && k != m[|m| - 1].0 ensures Less(k, m[|m| - 1].0) {
      InKeys(m, k);
      var i :| 0 <= i < |m| && m[i].0 == k;
    }
  }
}
