/**
 * The std::map<std::string, V> containers of the source (Column_t,
 * TableInfo_t, Table_t) as association lists kept in strictly ascending key
 * order; iteration visits them in that order.
 */
module OrderedMap {
  import opened Wrappers

  /** std::string's operator<: lexicographic by character code, a proper
      prefix before its extensions. */
  predicate Less(a: string, b: string)
  {
    |b| > 0 && (|a| == 0 || a[0] < b[0] || (a[0] == b[0] && Less(a[1..], b[1..])))
  }

  lemma {:induction false} LessIrreflexive(a: string)
    ensures !Less(a, a)
  {
    if |a| > 0 {
      LessIrreflexive(a[1..]);
    }
  }

  lemma {:induction false} LessTransitive(a: string, b: string, c: string)
    requires Less(a, b) && Less(b, c)
    ensures Less(a, c)
  {
    if |a| > 0 && a[0] == b[0] && b[0] == c[0] {
      LessTransitive(a[1..], b[1..], c[1..]);
    }
  }

  lemma {:induction false} LessTotal(a: string, b: string)
    requires a != b
    ensures Less(a, b) || Less(b, a)
  {
    if |a| > 0 && |b| > 0 && a[0] == b[0] && a[1..] != b[1..] {
      LessTotal(a[1..], b[1..]);
    }
  }

  type Assoc<V> = seq<(string, V)>

  predicate Sorted<V>(m: Assoc<V>)
  {
    forall i, j :: 0 <= i < j < |m| ==> Less(m[i].0, m[j].0)
  }

  function KeySet<V>(m: Assoc<V>): set<string>
  {
    if m == [] then {} else {m[0].0} + KeySet(m[1..])
  }

  /** The keys in iteration order. */
  function Keys<V>(m: Assoc<V>): (ks: seq<string>)
    ensures |ks| == |m|
  {
    seq(|m|, i requires 0 <= i < |m| => m[i].0)
  }

  /** The values in iteration order. */
  function Values<V>(m: Assoc<V>): (vs: seq<V>)
    ensures |vs| == |m|
  {
    seq(|m|, i requires 0 <= i < |m| => m[i].1)
  }

  /** std::map::find: the value stored under k, if any. */
  function Lookup<V>(m: Assoc<V>, k: string): (r: Option<V>)
    ensures r.Some? <==> k in KeySet(m)
    ensures r.Some? ==> (k, r.value) in m
  {
    if m == [] then None
    else if m[0].0 == k then Some(m[0].1)
    else Lookup(m[1..], k)
  }

  /** `m[k] = v` on a sorted map: replaces the value under k, or inserts k
      at its place in key order. */
  function Put<V>(m: Assoc<V>, k: string, v: V): (r: Assoc<V>)
  {
    if m == [] then [(k, v)]
    else if m[0].0 == k then [(k, v)] + m[1..]
    else if Less(k, m[0].0) then [(k, v)] + m
    else [m[0]] + Put(m[1..], k, v)
  }

  lemma {:induction false} PutKeys<V>(m: Assoc<V>, k: string, v: V)
    ensures KeySet(Put(m, k, v)) == KeySet(m) + {k}
  {
    if m != [] && m[0].0 != k && !Less(k, m[0].0) {
      PutKeys(m[1..], k, v);
      assert Put(m, k, v)[1..] == Put(m[1..], k, v);
    } else if m != [] && m[0].0 == k {
      assert Put(m, k, v)[1..] == m[1..];
    } else if m != [] {
      assert Put(m, k, v)[1..] == m;
    }
  }

  /** Every key of m is one of its entries' keys. */
  lemma {:induction false} KeySetMember<V>(m: Assoc<V>, x: string)
    requires x in KeySet(m)
    ensures exists i :: 0 <= i < |m| && m[i].0 == x
  {
    if m[0].0 != x {
      KeySetMember(m[1..], x);
      var i :| 0 <= i < |m[1..]| && m[1..][i].0 == x;
      assert m[i + 1].0 == x;
    }
  }

  lemma {:induction false} KeySetHas<V>(m: Assoc<V>, i: nat)
    requires i < |m|
    ensures m[i].0 in KeySet(m)
  {
    if i > 0 {
      KeySetHas(m[1..], i - 1);
    }
  }

  /** Put keeps the keys in strictly ascending order. */
  lemma {:induction false} PutSorted<V>(m: Assoc<V>, k: string, v: V)
    requires Sorted(m)
    ensures Sorted(Put(m, k, v))
  {
    if m == [] {
    } else if m[0].0 == k {
    } else if Less(k, m[0].0) {
      var r := Put(m, k, v);
      forall i, j | 0 <= i < j < |r| ensures Less(r[i].0, r[j].0) {
        if i == 0 && j > 1 {
          LessTransitive(k, m[0].0, m[j - 1].0);
        }
      }
    } else {
      LessTotal(k, m[0].0);
      var t := Put(m[1..], k, v);
      PutSorted(m[1..], k, v);
      PutKeys(m[1..], k, v);
      var r := [m[0]] + t;
      forall j | 0 < j < |r| ensures Less(m[0].0, r[j].0) {
        assert r[j].0 in KeySet(t) by { KeySetHas(t, j - 1); }
        KeySetMember(t, r[j].0);
        if r[j].0 != k {
          assert r[j].0 in KeySet(m[1..]);
          KeySetMember(m[1..], r[j].0);
          var i :| 0 <= i < |m[1..]| && m[1..][i].0 == r[j].0;
          assert m[i + 1].0 == r[j].0;
        }
      }
    }
  }

  /** Reading back after `m[k] = v`. */
  lemma {:induction false} LookupPut<V>(m: Assoc<V>, k: string, v: V, k': string)
    ensures Lookup(Put(m, k, v), k') == if k' == k then Some(v) else Lookup(m, k')
  {
    if m != [] && m[0].0 != k && !Less(k, m[0].0) {
      LookupPut(m[1..], k, v, k');
    }
  }
}
