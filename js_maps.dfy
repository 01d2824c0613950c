/**
 * JavaScript's `Map` as the resolver uses it: an insertion-ordered list of
 * entries with distinct keys. `set` on a present key replaces the value in
 * place and keeps the key's position; on a new key it appends.
 */
module JsMaps {
  import opened Options

  /** `Array.from(m.keys())` */
  function Keys<V>(m: seq<(string, V)>): seq<string>
  {
    if m == [] then [] else [m[0].0] + Keys(m[1..])
  }

  /** `Array.from(m.values())` */
  function Values<V>(m: seq<(string, V)>): (r: seq<V>)
    ensures |r| == |m|
    ensures forall i :: 0 <= i < |m| ==> r[i] == m[i].1
  {
    if m == [] then [] else [m[0].1] + Values(m[1..])
  }

  predicate DistinctKeys<V>(m: seq<(string, V)>)
  {
    m == [] || (m[0].0 !in Keys(m[1..]) && DistinctKeys(m[1..]))
  }

  type OrderedMap<V> = m: seq<(string, V)> | DistinctKeys(m) witness []

  /** `m.get(k)`, with `undefined` as `None` */
  function Get<V>(m: seq<(string, V)>, k: string): (r: Option<V>)
    ensures r.None? <==> k !in Keys(m)
  {
    if m == [] then None
    else if m[0].0 == k then Some(m[0].1)
    else Get(m[1..], k)
  }

  /** `m.set(k, v)` on a copy */
  function Set<V>(m: OrderedMap<V>, k: string, v: V): (r: OrderedMap<V>)
    ensures forall k' :: Get(r, k') == if k' == k then Some(v) else Get(m, k')
    ensures k in Keys(m) ==> Keys(r) == Keys(m)
    ensures k !in Keys(m) ==> Keys(r) == Keys(m) + [k]
  {
    if m == [] then assert [(k, v)][1..] == []; [(k, v)]
    else if m[0].0 == k then [(k, v)] + m[1..]
    else [m[0]] + Set(m[1..], k, v)
  }

  /** The keys of `c`, in `c`'s order, that are not among `ks`. */
  function NewKeys(ks: seq<string>, c: seq<string>): seq<string>
  {
    if c == [] then []
    else (if c[0] in ks then [] else [c[0]]) + NewKeys(ks, c[1..])
  }

  /**
   * `new Map(m)` followed by `result.set(key, value)` for every entry of `c`
   * in order: `c`'s values win, `m`'s other entries stay, and `c`'s new keys
   * are appended in `c`'s order.
   */
  function SetAll<V>(m: OrderedMap<V>, c: OrderedMap<V>): (r: OrderedMap<V>)
    ensures forall k :: Get(r, k) == if k in Keys(c) then Get(c, k) else Get(m, k)
    ensures Keys(r) == Keys(m) + NewKeys(Keys(m), Keys(c))
    decreases |c|
  {
    if c == [] then m
    else
      var m' := Set(m, c[0].0, c[0].1);
      var r := SetAll(m', c[1..]);
      assert forall k :: Get(r, k) == if k in Keys(c) then Get(c, k) else Get(m, k) by {
        forall k ensures Get(r, k) == if k in Keys(c) then Get(c, k) else Get(m, k) {
          SetAllGetStep(m, c, r, k);
        }
      }
      SetAllKeysStep(m, c);
      r
  }

  lemma SetAllGetStep<V>(m: OrderedMap<V>, c: OrderedMap<V>, r: OrderedMap<V>, k: string)
    requires c != []
    requires Get(r, k) == if k in Keys(c[1..]) then Get(c[1..], k) else Get(Set(m, c[0].0, c[0].1), k)
    ensures Get(r, k) == if k in Keys(c) then Get(c, k) else Get(m, k)
  {
    var k0 := c[0].0;
    assert Keys(c) == [k0] + Keys(c[1..]);
    assert k0 !in Keys(c[1..]);
    if k != k0 {
      assert Get(c, k) == Get(c[1..], k);
    }
  }

  lemma SetAllKeysStep<V>(m: OrderedMap<V>, c: OrderedMap<V>)
    requires c != []
    ensures var m' := Set(m, c[0].0, c[0].1);
      Keys(m') + NewKeys(Keys(m'), Keys(c[1..])) == Keys(m) + NewKeys(Keys(m), Keys(c))
  {
    var k0 := c[0].0;
    var m' := Set(m, k0, c[0].1);
    var rest := Keys(c[1..]);
    assert Keys(c) == [k0] + rest;
    assert k0 !in rest;
    if k0 in Keys(m) {
      assert Keys(m') == Keys(m);
      assert NewKeys(Keys(m), Keys(c)) == NewKeys(Keys(m), rest);
    } else {
      NewKeysExtend(Keys(m), k0, rest);
      var x := NewKeys(Keys(m), rest);
      assert NewKeys(Keys(m), Keys(c)) == [k0] + x;
      assert Keys(m') == Keys(m) + [k0];
      assert NewKeys(Keys(m'), rest) == x;
      assert (Keys(m) + [k0]) + x == Keys(m) + ([k0] + x);
    }
  }

  /** Adding a key that `c` does not mention does not change which of `c`'s keys are new. */
  lemma {:induction false} NewKeysExtend(ks: seq<string>, k: string, c: seq<string>)
    requires k !in c
    ensures NewKeys(ks + [k], c) == NewKeys(ks, c)
  {
    if c != [] {
      NewKeysExtend(ks, k, c[1..]);
    }
  }

  /** Setting a key to the value it already has gives back the same map. */
  lemma {:induction false} SetPresent<V>(m: OrderedMap<V>, k: string, v: V)
    requires Get(m, k) == Some(v)
    ensures Set(m, k, v) == m
  {
    if m[0].0 != k {
      SetPresent(m[1..], k, v);
    }
  }

  /** Every entry of a map is what `get` returns for its key. */
  lemma {:induction false} GetEntry<V>(m: OrderedMap<V>, i: nat)
    requires i < |m|
    ensures Get(m, m[i].0) == Some(m[i].1)
  {
    if i > 0 {
      GetEntry(m[1..], i - 1);
      KeyAt(m[1..], i - 1);
    }
  }

  lemma {:induction false} KeyAt<V>(m: seq<(string, V)>, i: nat)
    requires i < |m|
    ensures m[i].0 in Keys(m)
  {
    if i > 0 {
      KeyAt(m[1..], i - 1);
    }
  }

  /** Applying entries that `m` already holds changes nothing. */
  lemma {:induction false} SetAllPresent<V>(m: OrderedMap<V>, c: OrderedMap<V>)
    requires forall k :: k in Keys(c) ==> Get(m, k) == Get(c, k)
    ensures SetAll(m, c) == m
  {
    if c != [] {
      SetPresent(m, c[0].0, c[0].1);
      SetAllPresent(m, c[1..]);
    }
  }
}
