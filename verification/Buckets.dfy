/** What the two chained hash tables share: an array of chains that stands for a finite map. */
module Buckets {
  import opened Wrappers
  import opened Sequences

  datatype Element<K, V> = Element(key: K, hash: nat, value: V)

  type Chain<K, V> = seq<Element<K, V>>

  ghost predicate HasKey<K, V>(c: Chain<K, V>, k: K) {
    exists i :: 0 <= i < |c| && c[i].key == k
  }

  ghost predicate Distinct<K, V>(c: Chain<K, V>) {
    forall i, j :: 0 <= i < j < |c| ==> c[i].key != c[j].key
  }

  function Slot(h: nat, n: nat): (b: nat)
    requires n > 0
    ensures b < n
  {
    h % n
  }

  /** The elements of chain b of n lie in the right chain and carry the map's values. */
  ghost predicate ChainIn<K, V>(c: Chain<K, V>, b: nat, n: nat, hash: K -> nat, m: map<K, V>)
    requires n > 0
  {
    forall i :: 0 <= i < |c| ==>
      c[i].hash == hash(c[i].key) && Slot(c[i].hash, n) == b && c[i].key in m && m[c[i].key] == c[i].value
  }

  /** Every key of the map stands in its chain, once, with its value; nothing else does. */
  ghost predicate Represents<K(!new), V>(bs: seq<Chain<K, V>>, hash: K -> nat, m: map<K, V>) {
    && |bs| > 0
    && (forall b :: 0 <= b < |bs| ==> ChainIn(bs[b], b, |bs|, hash, m) && Distinct(bs[b]))
    && (forall k :: k in m ==> HasKey(bs[Slot(hash(k), |bs|)], k))
  }

  ghost function Lookup<K, V>(m: map<K, V>, k: K): Option<V> {
    if k in m then Some(m[k]) else None
  }

  /** A key that its chain lacks is not in the map. */
  lemma AbsentKey<K(!new), V>(bs: seq<Chain<K, V>>, hash: K -> nat, m: map<K, V>, k: K)
    requires Represents(bs, hash, m) && !HasKey(bs[Slot(hash(k), |bs|)], k)
    ensures k !in m
  {
  }

  lemma PresentKey<K(!new), V>(bs: seq<Chain<K, V>>, hash: K -> nat, m: map<K, V>, b: nat, i: nat)
    requires Represents(bs, hash, m) && b < |bs| && i < |bs[b]|
    ensures bs[b][i].key in m && m[bs[b][i].key] == bs[b][i].value
    ensures bs[b][i].hash == hash(bs[b][i].key) && Slot(bs[b][i].hash, |bs|) == b
  {
    assert ChainIn(bs[b], b, |bs|, hash, m);
  }

  // ---------- changing one chain ----------

  /** Put a new chain in place of chain b. */
  lemma ReplaceChain<K(!new), V>(bs: seq<Chain<K, V>>, hash: K -> nat, m: map<K, V>, b: nat, c: Chain<K, V>, m': map<K, V>, k0: K)
    requires Represents(bs, hash, m) && b < |bs| && b == Slot(hash(k0), |bs|)
    requires ChainIn(c, b, |bs|, hash, m') && Distinct(c)
    requires forall k :: k in m' && k != k0 ==> k in m && m'[k] == m[k]
    requires forall k :: k in m && k != k0 ==> k in m'
    requires forall k :: HasKey(bs[b], k) && k != k0 ==> HasKey(c, k)
    requires k0 in m' ==> HasKey(c, k0)
    ensures Represents(bs[b := c], hash, m')
  {
    var n := |bs|;
    var bs' := bs[b := c];
    hide HasKey, Distinct;
    forall x | 0 <= x < n ensures ChainIn(bs'[x], x, n, hash, m') && Distinct(bs'[x]) {
      if x != b {
        assert ChainIn(bs[x], x, n, hash, m) && Distinct(bs[x]);
      }
    }
    forall k | k in m' ensures HasKey(bs'[Slot(hash(k), n)], k) {
      if k != k0 { assert HasKey(bs[Slot(hash(k), n)], k); }
    }
  }

  /** A new key goes in at position i of its chain. */
  lemma InsertAt<K(!new), V>(bs: seq<Chain<K, V>>, hash: K -> nat, m: map<K, V>, b: nat, i: nat, e: Element<K, V>)
    requires Represents(bs, hash, m) && b < |bs| && i <= |bs[b]|
    requires e.hash == hash(e.key) && Slot(e.hash, |bs|) == b && !HasKey(bs[b], e.key)
    ensures Represents(bs[b := bs[b][..i] + [e] + bs[b][i..]], hash, m[e.key := e.value])
  {
    var c, m' := bs[b], m[e.key := e.value];
    var c' := c[..i] + [e] + c[i..];
    assert ChainIn(c, b, |bs|, hash, m) && Distinct(c);
    Inserted(c, i, e);
    ReplaceChain(bs, hash, m, b, c', m', e.key);
  }

  lemma Inserted<K(!new), V>(c: Chain<K, V>, i: nat, e: Element<K, V>)
    requires i <= |c| && Distinct(c) && !HasKey(c, e.key)
    ensures Distinct(c[..i] + [e] + c[i..]) && HasKey(c[..i] + [e] + c[i..], e.key)
    ensures forall k :: HasKey(c, k) ==> HasKey(c[..i] + [e] + c[i..], k)
  {
    var c' := c[..i] + [e] + c[i..];
    assert c'[i] == e;
    forall k | HasKey(c, k) ensures HasKey(c', k) {
      var j :| 0 <= j < |c| && c[j].key == k;
      assert c'[if j < i then j else j + 1] == c[j];
    }
  }

  /** A key outside the map goes in at position i. */
  lemma InsertNew<K(!new), V>(bs: seq<Chain<K, V>>, hash: K -> nat, m: map<K, V>, b: nat, i: nat, e: Element<K, V>)
    requires Represents(bs, hash, m) && e.hash == hash(e.key) && e.key !in m
    requires b == Slot(e.hash, |bs|) && i <= |bs[b]|
    ensures Represents(bs[b := bs[b][..i] + [e] + bs[b][i..]], hash, m[e.key := e.value])
    ensures |m[e.key := e.value]| == |m| + 1
  {
    forall j | 0 <= j < |bs[b]| ensures bs[b][j].key != e.key { PresentKey(bs, hash, m, b, j); }
    InsertAt(bs, hash, m, b, i, e);
    CountPut(m, e.key, e.value);
  }

  /** A key that is there gets a new value. */
  lemma SetAt<K(!new), V>(bs: seq<Chain<K, V>>, hash: K -> nat, m: map<K, V>, b: nat, i: nat, v: V)
    requires Represents(bs, hash, m) && b < |bs| && i < |bs[b]|
    ensures Represents(bs[b := bs[b][i := bs[b][i].(value := v)]], hash, m[bs[b][i].key := v])
    ensures |m[bs[b][i].key := v]| == |m|
  {
    PresentKey(bs, hash, m, b, i);
    CountPut(m, bs[b][i].key, v);
    var c, m' := bs[b], m[bs[b][i].key := v];
    var c' := c[i := c[i].(value := v)];
    assert ChainIn(c, b, |bs|, hash, m) && Distinct(c);
    forall k | HasKey(c, k) ensures HasKey(c', k) {
      var j :| 0 <= j < |c| && c[j].key == k;
      assert c'[j].key == k;
    }
    assert c'[i].key == c[i].key;
    ReplaceChain(bs, hash, m, b, c', m', c[i].key);
  }

  /** A key is taken out of its chain. */
  lemma RemoveAt<K(!new), V>(bs: seq<Chain<K, V>>, hash: K -> nat, m: map<K, V>, b: nat, i: nat)
    requires Represents(bs, hash, m) && b < |bs| && i < |bs[b]|
    ensures Represents(bs[b := bs[b][..i] + bs[b][i + 1..]], hash, m - {bs[b][i].key})
    ensures |m - {bs[b][i].key}| == |m| - 1
  {
    PresentKey(bs, hash, m, b, i);
    CountRemove(m, bs[b][i].key);
    var c := bs[b];
    var k0 := c[i].key;
    var c', m' := c[..i] + c[i + 1..], m - {k0};
    assert ChainIn(c, b, |bs|, hash, m) && Distinct(c);
    Removed(c, i);
    assert ChainIn(c', b, |bs|, hash, m') by {
      forall j | 0 <= j < |c'|
        ensures c'[j].hash == hash(c'[j].key) && Slot(c'[j].hash, |bs|) == b && c'[j].key in m' && m'[c'[j].key] == c'[j].value
      {
        assert c'[j] == c[if j < i then j else j + 1];
      }
    }
    ReplaceChain(bs, hash, m, b, c', m', k0);
  }

  lemma Removed<K(!new), V>(c: Chain<K, V>, i: nat)
    requires i < |c| && Distinct(c)
    ensures Distinct(c[..i] + c[i + 1..]) && !HasKey(c[..i] + c[i + 1..], c[i].key)
    ensures forall k :: HasKey(c, k) && k != c[i].key ==> HasKey(c[..i] + c[i + 1..], k)
  {
    var c' := c[..i] + c[i + 1..];
    forall k | HasKey(c, k) && k != c[i].key ensures HasKey(c', k) {
      var j :| 0 <= j < |c| && c[j].key == k;
      assert c'[if j < i then j else j - 1] == c[j];
    }
  }

  // ---------- counting ----------

  lemma CountPut<K(!new), V>(m: map<K, V>, k: K, v: V)
    ensures |m[k := v]| == if k in m then |m| else |m| + 1
  {
    assert m[k := v].Keys == m.Keys + {k};
  }

  lemma CountRemove<K(!new), V>(m: map<K, V>, k: K)
    requires k in m
    ensures |m - {k}| == |m| - 1
  {
    assert (m - {k}).Keys == m.Keys - {k};
  }

  /** The chain that a key's elements moved from before position (i, j) of the old table. */
  ghost predicate MovedBefore<K, V>(bs: seq<Chain<K, V>>, hash: K -> nat, k: K, i: nat, j: nat)
    requires |bs| > 0
  {
    Slot(hash(k), |bs|) < i || (i < |bs| && j <= |bs[i]| && Slot(hash(k), |bs|) == i && HasKey(bs[i][..j], k))
  }

  /** done holds what a rehash has moved so far of m. */
  ghost predicate Moved<K(!new), V>(bs: seq<Chain<K, V>>, hash: K -> nat, m: map<K, V>, done: map<K, V>, i: nat, j: nat)
    requires |bs| > 0
  {
    && (forall k :: k in done ==> k in m && done[k] == m[k])
    && (forall k :: k in m ==> (k in done <==> MovedBefore(bs, hash, k, i, j)))
  }

  lemma MovedNone<K(!new), V>(bs: seq<Chain<K, V>>, hash: K -> nat, m: map<K, V>)
    requires |bs| > 0
    ensures Moved(bs, hash, m, map[], 0, 0)
  {
  }

  /** One more element. */
  lemma MovedElement<K(!new), V>(bs: seq<Chain<K, V>>, hash: K -> nat, m: map<K, V>, done: map<K, V>, i: nat, j: nat)
    requires Represents(bs, hash, m) && i < |bs| && j < |bs[i]| && Moved(bs, hash, m, done, i, j)
    ensures bs[i][j].key !in done && bs[i][j].hash == hash(bs[i][j].key)
    ensures Moved(bs, hash, m, done[bs[i][j].key := bs[i][j].value], i, j + 1)
  {
    var e := bs[i][j];
    PresentKey(bs, hash, m, i, j);
    assert Distinct(bs[i]);
    assert !HasKey(bs[i][..j], e.key);
    forall k | k in m ensures MovedBefore(bs, hash, k, i, j + 1) <==> MovedBefore(bs, hash, k, i, j) || k == e.key {
      HasKeyStep(bs[i], j, k);
    }
  }

  lemma HasKeyStep<K(!new), V>(c: Chain<K, V>, j: nat, k: K)
    requires j < |c|
    ensures HasKey(c[..j + 1], k) <==> HasKey(c[..j], k) || c[j].key == k
  {
    if HasKey(c[..j], k) {
      var x :| 0 <= x < j && c[..j][x].key == k;
      assert c[..j + 1][x].key == k;
    }
    assert c[..j + 1][j] == c[j];
  }

  /** The end of a chain. */
  lemma MovedChain<K(!new), V>(bs: seq<Chain<K, V>>, hash: K -> nat, m: map<K, V>, done: map<K, V>, i: nat)
    requires Represents(bs, hash, m) && i < |bs| && Moved(bs, hash, m, done, i, |bs[i]|)
    ensures Moved(bs, hash, m, done, i + 1, 0)
  {
    assert bs[i][..|bs[i]|] == bs[i];
    forall k | k in m ensures MovedBefore(bs, hash, k, i + 1, 0) <==> MovedBefore(bs, hash, k, i, |bs[i]|) {
      assert HasKey(bs[Slot(hash(k), |bs|)], k);
      assert i + 1 < |bs| ==> !HasKey(bs[i + 1][..0], k);
    }
  }

  lemma MovedAll<K(!new), V>(bs: seq<Chain<K, V>>, hash: K -> nat, m: map<K, V>, done: map<K, V>)
    requires |bs| > 0 && Moved(bs, hash, m, done, |bs|, 0)
    ensures done == m
  {
    assert forall k :: k in m ==> MovedBefore(bs, hash, k, |bs|, 0);
  }

  /** A table of empty chains. */
  lemma EmptyTable<K(!new), V>(bs: seq<Chain<K, V>>, hash: K -> nat)
    requires |bs| > 0 && forall b :: 0 <= b < |bs| ==> bs[b] == []
    ensures Represents(bs, hash, map[])
  {
  }

  // ---------- walking the table ----------

  // hash_next and the foreach functions visit the elements of all chains one chain after the other: Concat(bs).

  /** What is left of the walk from element i of chain b on. */
  ghost function From<K, V>(bs: seq<Chain<K, V>>, b: nat, i: nat): (r: Chain<K, V>)
    requires b < |bs| ==> i <= |bs[b]|
  {
    if b < |bs| then bs[b][i..] + Concat(bs[b + 1..]) else []
  }

  /** At the end of a chain the walk goes on with the next one. */
  lemma FromNextChain<K, V>(bs: seq<Chain<K, V>>, b: nat)
    requires b < |bs|
    ensures From(bs, b, |bs[b]|) == From(bs, b + 1, 0) == Concat(bs[b + 1..])
  {
    if b + 1 < |bs| {
      assert bs[b + 1..][0] == bs[b + 1] && bs[b + 1..][1..] == bs[b + 2..];
    }
  }

  lemma FromStart<K, V>(bs: seq<Chain<K, V>>)
    ensures From(bs, 0, 0) == Concat(bs)
  {
  }

  lemma FromEnd<K, V>(bs: seq<Chain<K, V>>)
    ensures From(bs, |bs|, 0) == []
  {
  }

  lemma FromElement<K, V>(bs: seq<Chain<K, V>>, b: nat, i: nat)
    requires b < |bs| && i < |bs[b]|
    ensures From(bs, b, i) == [bs[b][i]] + From(bs, b, i + 1)
  {
    assert bs[b][i..] == [bs[b][i]] + bs[b][i + 1..];
    hide Concat;
    Assoc([bs[b][i]], bs[b][i + 1..], Concat(bs[b + 1..]));
  }

  lemma {:induction false} FlatFrom<K(!new), V>(bs: seq<Chain<K, V>>, b: nat, i: nat) returns (at: nat)
    requires b < |bs| && i < |bs[b]|
    ensures at < |Concat(bs)| && Concat(bs)[at] == bs[b][i]
  {
    if b == 0 { at := i; } else {
      at := FlatFrom(bs[1..], b - 1, i);
      at := at + |bs[0]|;
    }
  }

  lemma {:induction false} FlatTo<K(!new), V>(bs: seq<Chain<K, V>>, at: nat) returns (b: nat, i: nat)
    requires at < |Concat(bs)|
    ensures b < |bs| && i < |bs[b]| && Concat(bs)[at] == bs[b][i]
  {
    if at < |bs[0]| { b, i := 0, at; } else {
      b, i := FlatTo(bs[1..], at - |bs[0]|);
      b := b + 1;
    }
  }

  /** Chains of a table have no key in common, so the walk meets no key twice. */
  lemma {:induction false} FlatDistinct<K(!new), V>(bs: seq<Chain<K, V>>, hash: K -> nat, n: nat, from: nat)
    requires n > 0 && forall b :: 0 <= b < |bs| ==> Distinct(bs[b]) && AllIn(bs[b], hash, n, from + b)
    ensures Distinct(Concat(bs))
    ensures forall i :: 0 <= i < |Concat(bs)| ==> Slot(hash(Concat(bs)[i].key), n) >= from
  {
    if bs != [] {
      var rest := bs[1..];
      assert forall b :: 0 <= b < |rest| ==> rest[b] == bs[b + 1];
      FlatDistinct(rest, hash, n, from + 1);
      assert Distinct(bs[0]) && AllIn(bs[0], hash, n, from);
    }
  }

  ghost predicate AllIn<K, V>(c: Chain<K, V>, hash: K -> nat, n: nat, b: nat)
    requires n > 0
  {
    forall i :: 0 <= i < |c| ==> Slot(hash(c[i].key), n) == b
  }

  /** The walk visits every entry of the map exactly once. */
  lemma WalkIsMap<K(!new), V>(bs: seq<Chain<K, V>>, hash: K -> nat, m: map<K, V>)
    requires Represents(bs, hash, m)
    ensures Distinct(Concat(bs)) && |Concat(bs)| == |m|
    ensures forall i :: 0 <= i < |Concat(bs)| ==> Lookup(m, Concat(bs)[i].key) == Some(Concat(bs)[i].value)
    ensures forall k :: k in m ==> HasKey(Concat(bs), k)
  {
    var f := Concat(bs);
    forall b | 0 <= b < |bs| ensures Distinct(bs[b]) && AllIn(bs[b], hash, |bs|, 0 + b) {
      assert ChainIn(bs[b], b, |bs|, hash, m);
    }
    FlatDistinct(bs, hash, |bs|, 0);
    forall i | 0 <= i < |f| ensures Lookup(m, f[i].key) == Some(f[i].value) {
      var b, j := FlatTo(bs, i);
      PresentKey(bs, hash, m, b, j);
    }
    forall k | k in m ensures HasKey(f, k) {
      var b := Slot(hash(k), |bs|);
      assert HasKey(bs[b], k);
      var i :| 0 <= i < |bs[b]| && bs[b][i].key == k;
      var at := FlatFrom(bs, b, i);
    }
    DistinctCount(f, m.Keys);
  }

  lemma {:induction false} DistinctCount<K(!new), V>(f: Chain<K, V>, keys: set<K>)
    requires Distinct(f) && forall k :: k in keys <==> HasKey(f, k)
    ensures |f| == |keys|
  {
    if f == [] {
      assert forall k :: k in keys ==> HasKey(f, k);
    } else {
      var x := f[0].key;
      var g, rest := f[1..], keys - {x};
      assert HasKey(f, x);
      forall k ensures k in rest <==> HasKey(g, k) {
        if k in rest {
          var i :| 0 <= i < |f| && f[i].key == k;
          assert g[i - 1].key == k;
        }
        if HasKey(g, k) {
          var i :| 0 <= i < |g| && g[i].key == k;
          assert f[i + 1].key == k;
        }
      }
      DistinctCount(g, rest);
    }
  }
}
