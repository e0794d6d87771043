/**
 * The associative array both classes are built on. Its implementation is not part of
 * this model; it is assumed to be an insertion-ordered map from strings: `set` overwrites
 * the value of a key that is present, where it stands, and appends a key that is not;
 * `get` fails on a missing key; iteration visits the pairs in their stored order.
 * A map is the sequence of its pairs in iteration order.
 */
module OrderedMap {
  import opened Outcomes

  /** The keys in iteration order. */
  function Keys<V>(m: seq<(string, V)>): seq<string>
  {
    seq(|m|, i requires 0 <= i < |m| => m[i].0)
  }

  /** No key is stored twice. */
  predicate DistinctKeys<V>(m: seq<(string, V)>)
  {
    forall i, j :: 0 <= i < j < |m| ==> m[i].0 != m[j].0
  }

  /** hasKey: a scan of the pairs. */
  function HasKey<V>(m: seq<(string, V)>, k: string): (b: bool)
    ensures b <==> exists i :: 0 <= i < |m| && m[i].0 == k
  {
    if m == [] then false else m[0].0 == k || HasKey(m[1..], k)
  }

  /** hasKey agrees with membership in the key list. */
  lemma HasKeyInKeys<V>(m: seq<(string, V)>, k: string)
    ensures HasKey(m, k) <==> k in Keys(m)
  {
    if HasKey(m, k) {
      var i :| 0 <= i < |m| && m[i].0 == k;
      assert Keys(m)[i] == k;
    }
  }

  /** get: the value of the first pair with key `k`, None where `get` would throw. */
  function Get<V>(m: seq<(string, V)>, k: string): (r: Option<V>)
    ensures r.Some? <==> HasKey(m, k)
    ensures r.Some? ==> (k, r.value) in m
  {
    if m == [] then None
    else if m[0].0 == k then Some(m[0].1)
    else Get(m[1..], k)
  }

  /** set: overwrite the pair of `k` in place, or append a new pair. */
  function Set<V>(m: seq<(string, V)>, k: string, v: V): (r: seq<(string, V)>)
    ensures |r| == if HasKey(m, k) then |m| else |m| + 1
  {
    if m == [] then [(k, v)]
    else if m[0].0 == k then [(k, v)] + m[1..]
    else [m[0]] + Set(m[1..], k, v)
  }

  /** After set(k, v), get(k) yields v. */
  lemma {:induction false} GetSetSame<V>(m: seq<(string, V)>, k: string, v: V)
    ensures Get(Set(m, k, v), k) == Some(v)
  {
    if m != [] && m[0].0 != k {
      GetSetSame(m[1..], k, v);
    }
  }

  /** set(k, v) leaves the value of every other key as it was, present or absent. */
  lemma {:induction false} GetSetOther<V>(m: seq<(string, V)>, k: string, v: V, k': string)
    requires k' != k
    ensures Get(Set(m, k, v), k') == Get(m, k')
  {
    if m != [] && m[0].0 != k {
      GetSetOther(m[1..], k, v, k');
    }
  }

  /** set keeps the key order, and adds a key at the end exactly when it was absent. */
  lemma {:induction false} KeysSet<V>(m: seq<(string, V)>, k: string, v: V)
    ensures Keys(Set(m, k, v)) == if HasKey(m, k) then Keys(m) else Keys(m) + [k]
  {
    if m != [] && m[0].0 != k {
      KeysSet(m[1..], k, v);
      var rest := Set(m[1..], k, v);
      assert Keys(m) == [m[0].0] + Keys(m[1..]);
      assert Keys([m[0]] + rest) == [m[0].0] + Keys(rest);
    }
  }

  /** set never stores a key twice. */
  lemma SetDistinct<V>(m: seq<(string, V)>, k: string, v: V)
    requires DistinctKeys(m)
    ensures DistinctKeys(Set(m, k, v))
  {
    var r := Set(m, k, v);
    KeysSet(m, k, v);
    forall i, j | 0 <= i < j < |r|
      ensures r[i].0 != r[j].0
    {
      assert Keys(r)[i] == r[i].0 && Keys(r)[j] == r[j].0;
      if j == |m| {
        assert !HasKey(m, k);
      } else {
        assert Keys(m)[i] == m[i].0 && Keys(m)[j] == m[j].0;
      }
    }
  }

  /** In a map without repeated keys, the pair at any position is what get finds. */
  lemma {:induction false} GetAt<V>(m: seq<(string, V)>, j: int)
    requires DistinctKeys(m) && 0 <= j < |m|
    ensures Get(m, m[j].0) == Some(m[j].1)
  {
    if j > 0 {
      assert m[0].0 != m[j].0;
      GetAt(m[1..], j - 1);
    }
  }

  /** set on a present key replaces that one pair and nothing else. */
  lemma {:induction false} SetExisting<V>(m: seq<(string, V)>, j: int, v: V)
    requires DistinctKeys(m) && 0 <= j < |m|
    ensures Set(m, m[j].0, v) == m[j := (m[j].0, v)]
  {
    if j > 0 {
      assert m[0].0 != m[j].0;
      SetExisting(m[1..], j - 1, v);
    }
  }

  /** set on an absent key appends the pair. */
  lemma {:induction false} SetFresh<V>(m: seq<(string, V)>, k: string, v: V)
    requires !HasKey(m, k)
    ensures Set(m, k, v) == m + [(k, v)]
  {
    if m != [] {
      SetFresh(m[1..], k, v);
    }
  }

  /** set on the key of the last pair, when no earlier pair has it, replaces that last pair. */
  lemma {:induction false} SetLast<V>(m: seq<(string, V)>, k: string, v: V, v': V)
    requires !HasKey(m, k)
    ensures Set(m + [(k, v)], k, v') == m + [(k, v')]
  {
    if m != [] {
      assert (m + [(k, v)])[0] == m[0];
      assert (m + [(k, v)])[1..] == m[1..] + [(k, v)];
      SetLast(m[1..], k, v, v');
    }
  }

  /** In a map without repeated keys, no pair's key occurs among the pairs before it. */
  lemma DistinctPrefix<V>(m: seq<(string, V)>, n: int)
    requires DistinctKeys(m) && 0 <= n < |m|
    ensures !HasKey(m[..n], m[n].0)
  {
    forall j | 0 <= j < n
      ensures m[..n][j].0 != m[n].0
    {
    }
  }

  /** A key is in a map with one more pair exactly when it is that pair's key or was already there. */
  lemma HasKeyAppend<V>(m: seq<(string, V)>, k': string, v: V, k: string)
    ensures HasKey(m + [(k', v)], k) <==> HasKey(m, k) || k == k'
  {
    var r := m + [(k', v)];
    if HasKey(m, k) {
      var i :| 0 <= i < |m| && m[i].0 == k;
      assert r[i] == m[i];
    }
    if k == k' {
      assert r[|m|].0 == k;
    }
  }
}
