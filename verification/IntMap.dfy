/**
  The chained map of framework/map.c. Its chains are unsorted, a new key goes in front, and setting a
  key to NULL deletes it. The integer-keyed and the string-keyed functions differ only in the hash.
 */
module IntMap {
  import opened Wrappers
  import opened Sequences
  import opened Buckets

  const FIRST_SIZE: nat := 32

  class Map<K(==, !new), V> {
    const hash: K -> nat
    var itemCount: nat
    var buckets: seq<Chain<K, V>>  // none before the first key
    ghost var contents: map<K, V>

    ghost predicate Valid()
      reads this
    {
      && itemCount == |contents| <= |buckets| && (buckets == [] || |buckets| >= FIRST_SIZE)
      && (if buckets == [] then contents == map[] else Represents(buckets, hash, contents))
    }

    /** _agMap_new. */
    constructor (hash: K -> nat)
      ensures Valid() && contents == map[] && this.hash == hash
    {
      this.hash, itemCount, buckets, contents := hash, 0, [], map[];
    }

    /** _ip_find and _sp_find. */
    method Find(key: K) returns (found: bool, pos: nat)
      requires Valid()
      ensures found <==> key in contents
      ensures found ==>
        && |buckets| > 0 && pos < |buckets[Slot(hash(key), |buckets|)]|
        && buckets[Slot(hash(key), |buckets|)][pos].key == key
    {
      found, pos := false, 0;
      if |buckets| == 0 || itemCount == 0 {
        return;
      }
      var b := Slot(hash(key), |buckets|);
      var chain := buckets[b];
      assert ChainIn(chain, b, |buckets|, hash, contents);
      while pos < |chain| && (chain[pos].hash != hash(key) || chain[pos].key != key)
        invariant pos <= |chain| && forall j :: 0 <= j < pos ==> chain[j].key != key
      {
        pos := pos + 1;
      }
      found := pos < |chain|;
      if !found { AbsentKey(buckets, hash, contents, key); }
    }

    /** _agMap_ip_get and _agMap_sp_get. */
    method Get(key: K) returns (r: Option<V>)
      requires Valid()
      ensures r == Lookup(contents, key)
    {
      var found, pos := Find(key);
      if !found {
        return None;
      }
      var b := Slot(hash(key), |buckets|);
      PresentKey(buckets, hash, contents, b, pos);
      return Some(buckets[b][pos].value);
    }

    /** _agMap_ip_set and _agMap_sp_set: the answer is what the key was bound to; None deletes. */
    method Set(key: K, p: Option<V>) returns (o: Option<V>)
      requires Valid()
      modifies this
      ensures Valid() && o == Lookup(old(contents), key)
      ensures contents == if p.Some? then old(contents)[key := p.value] else old(contents) - {key}
    {
      var found, pos := Find(key);
      hide *;
      o := None;
      if found {
        o := Change(key, pos, p);
      } else if p.Some? {
        Resize(itemCount + 1);
        Add(key, p.value);
      } else {
        assert contents - {key} == contents;
      }
    }

    /** A key that is there: delete it or give it its new value. */
    method Change(key: K, pos: nat, p: Option<V>) returns (o: Option<V>)
      requires Valid() && |buckets| > 0 && pos < |buckets[Slot(hash(key), |buckets|)]|
      requires buckets[Slot(hash(key), |buckets|)][pos].key == key
      modifies this
      ensures Valid() && o == Lookup(old(contents), key)
      ensures contents == if p.Some? then old(contents)[key := p.value] else old(contents) - {key}
    {
      var b := Slot(hash(key), |buckets|);
      PresentKey(buckets, hash, contents, b, pos);
      o := Some(buckets[b][pos].value);
      if p.None? {
        Delete(b, pos);
      } else {
        Assign(b, pos, p.value);
      }
    }

    method Delete(b: nat, pos: nat)
      requires Valid() && b < |buckets| && pos < |buckets[b]|
      modifies this
      ensures Valid() && contents == old(contents) - {old(buckets[b][pos].key)}
    {
      hide Represents;
      var chain := buckets[b];
      RemoveAt(buckets, hash, contents, b, pos);
      contents := contents - {chain[pos].key};
      buckets := buckets[b := chain[..pos] + chain[pos + 1..]];
      itemCount := itemCount - 1;
    }

    method Assign(b: nat, pos: nat, v: V)
      requires Valid() && b < |buckets| && pos < |buckets[b]|
      modifies this
      ensures Valid() && contents == old(contents)[old(buckets[b][pos].key) := v]
    {
      hide Represents;
      var chain := buckets[b];
      SetAt(buckets, hash, contents, b, pos, v);
      contents := contents[chain[pos].key := v];
      buckets := buckets[b := chain[pos := chain[pos].(value := v)]];
    }

    method Add(key: K, v: V)
      requires Valid() && itemCount < |buckets| && key !in contents
      modifies this
      ensures Valid() && contents == old(contents)[key := v]
    {
      hide Represents;
      InsertElement(Element(key, hash(key), v));
    }

    /** _insert_element: in front of the chain. */
    method InsertElement(e: Element<K, V>)
      requires |buckets| > 0 && Represents(buckets, hash, contents) && itemCount == |contents|
      requires e.hash == hash(e.key) && e.key !in contents
      modifies this`buckets, this`itemCount, this`contents
      ensures |buckets| == old(|buckets|) && Represents(buckets, hash, contents)
      ensures contents == old(contents)[e.key := e.value] && itemCount == |contents| == old(|contents|) + 1
    {
      hide Represents;
      var b := Slot(e.hash, |buckets|);
      var chain := buckets[b];
      InsertNew(buckets, hash, contents, b, 0, e);
      assert chain[..0] + [e] + chain[0..] == [e] + chain;
      buckets := buckets[b := [e] + chain];
      contents := contents[e.key := e.value];
      itemCount := itemCount + 1;
    }

    /** _resize: every element is put in again and counted again, the map stays what it was. */
    method Resize(s: nat)
      requires Valid()
      modifies this
      ensures Valid() && contents == old(contents) && |buckets| >= s
      ensures if old(|buckets|) >= s then buckets == old(buckets) else |buckets| == FIRST_SIZE || |buckets| < 2 * s
    {
      if |buckets| >= s {
        return;
      }
      var ns := if |buckets| == 0 then FIRST_SIZE else |buckets|;
      while ns < s
        invariant ns >= FIRST_SIZE && (ns == |buckets| || ns == FIRST_SIZE || ns < 2 * s)
      {
        ns := ns * 2;
      }
      var oldBuckets := buckets;
      ghost var m := contents;
      buckets := seq(ns, _ => []);
      itemCount, contents := 0, map[];
      EmptyTable(buckets, hash);
      hide Represents;
      if |oldBuckets| > 0 {
        MoveAll(oldBuckets, m);
      }
    }

    /** The rehashing loop of _resize. */
    method MoveAll(oldBuckets: seq<Chain<K, V>>, ghost m: map<K, V>)
      requires Represents(oldBuckets, hash, m)
      requires |buckets| > 0 && contents == map[] && itemCount == 0 && Represents(buckets, hash, contents)
      modifies this`buckets, this`itemCount, this`contents
      ensures |buckets| == old(|buckets|) && Represents(buckets, hash, m)
      ensures contents == m && itemCount == |m|
    {
      assert |oldBuckets| > 0;
      MovedNone(oldBuckets, hash, m);
      hide *;
      var i := 0;
      while i < |oldBuckets|
        invariant i <= |oldBuckets| && |buckets| == old(|buckets|)
        invariant Represents(buckets, hash, contents) && itemCount == |contents|
        invariant Moved(oldBuckets, hash, m, contents, i, 0)
      {
        MoveChain(oldBuckets, m, i);
        i := i + 1;
      }
      MovedAll(oldBuckets, hash, m, contents);
    }

    method MoveChain(oldBuckets: seq<Chain<K, V>>, ghost m: map<K, V>, i: nat)
      requires Represents(oldBuckets, hash, m) && i < |oldBuckets|
      requires |buckets| > 0 && Represents(buckets, hash, contents) && itemCount == |contents|
      requires Moved(oldBuckets, hash, m, contents, i, 0)
      modifies this`buckets, this`itemCount, this`contents
      ensures |buckets| == old(|buckets|) && Represents(buckets, hash, contents) && itemCount == |contents|
      ensures Moved(oldBuckets, hash, m, contents, i + 1, 0)
    {
      hide *;
      var j := 0;
      while j < |oldBuckets[i]|
        invariant j <= |oldBuckets[i]| && |buckets| == old(|buckets|)
        invariant Represents(buckets, hash, contents) && itemCount == |contents|
        invariant Moved(oldBuckets, hash, m, contents, i, j)
      {
        MovedElement(oldBuckets, hash, m, contents, i, j);
        InsertElement(oldBuckets[i][j]);
        j := j + 1;
      }
      MovedChain(oldBuckets, hash, m, contents, i);
    }

    /** _agMap_ip_foreach: the walk over all chains. */
    method Foreach() returns (out: Chain<K, V>)
      requires Valid()
      ensures out == Concat(buckets) && |out| == |contents| && Distinct(out)
      ensures forall i :: 0 <= i < |out| ==> Lookup(contents, out[i].key) == Some(out[i].value)
      ensures forall k :: k in contents ==> HasKey(out, k)
    {
      out := [];
      hide Represents;
      FromStart(buckets);
      for i := 0 to |buckets|
        invariant out + From(buckets, i, 0) == Concat(buckets)
      {
        out := out + buckets[i];
        FromNextChain(buckets, i);
      }
      if buckets != [] { WalkIsMap(buckets, hash, contents); }
    }
  }
}
