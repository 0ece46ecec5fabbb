/**
  The chained hash table of framework/hash.c. Its chains are sorted by key, so that a search may stop
  early; the table doubles as soon as it holds as many entries as chains.
 */
module HashTable {
  import opened Wrappers
  import opened Sequences
  import opened Buckets
  import opened Bytes

  type Key = seq<byte>

  const FIRST_SIZE: nat := 128

  // ---------- the order of keys ----------

  /** The sign of memcmp on blocks of one length. */
  function MemCmp(a: Key, b: Key): (c: int)
    requires |a| == |b|
    ensures -1 <= c <= 1
  {
    if a == [] then 0
    else if a[0] < b[0] then -1
    else if a[0] > b[0] then 1
    else MemCmp(a[1..], b[1..])
  }

  /** default_cmp_key: shorter keys first. */
  function KeyCmp(a: Key, b: Key): (c: int)
    ensures -1 <= c <= 1
  {
    if |a| < |b| then -1 else if |a| > |b| then 1 else MemCmp(a, b)
  }

  ghost predicate Less(a: Key, b: Key) {
    KeyCmp(a, b) < 0
  }

  lemma {:induction false} MemCmpZero(a: Key, b: Key)
    requires |a| == |b|
    ensures MemCmp(a, b) == 0 <==> a == b
    ensures MemCmp(a, b) == -MemCmp(b, a)
  {
    if a != [] && a[0] == b[0] {
      MemCmpZero(a[1..], b[1..]);
      assert a == [a[0]] + a[1..] && b == [b[0]] + b[1..];
    }
  }

  lemma {:induction false} MemCmpTrans(a: Key, b: Key, c: Key)
    requires |a| == |b| == |c| && MemCmp(a, b) < 0 && MemCmp(b, c) < 0
    ensures MemCmp(a, c) < 0
  {
    if a != [] && a[0] == b[0] == c[0] {
      MemCmpTrans(a[1..], b[1..], c[1..]);
    }
  }

  /** The order is total: two keys compare as equal only when they are. */
  lemma Trichotomy(a: Key, b: Key)
    ensures KeyCmp(a, b) == 0 <==> a == b
    ensures KeyCmp(a, b) == -KeyCmp(b, a)
    ensures !Less(a, a)
  {
    if |a| == |b| { MemCmpZero(a, b); }
    MemCmpZero(a, a);
  }

  lemma LessTrans(a: Key, b: Key, c: Key)
    requires Less(a, b) && Less(b, c)
    ensures Less(a, c)
  {
    if |a| == |b| == |c| { MemCmpTrans(a, b, c); }
  }

  // ---------- sorted chains ----------

  ghost predicate Sorted<V>(c: Chain<Key, V>) {
    forall i, j :: 0 <= i < j < |c| ==> Less(c[i].key, c[j].key)
  }

  ghost predicate AllSorted<V>(bs: seq<Chain<Key, V>>) {
    forall b :: 0 <= b < |bs| ==> Sorted(bs[b])
  }

  /** A key belongs between the first i elements and the others. */
  ghost predicate Between<V>(c: Chain<Key, V>, key: Key, i: nat) {
    && i <= |c|
    && (forall j :: 0 <= j < i ==> Less(c[j].key, key))
    && (forall j :: i <= j < |c| ==> Less(key, c[j].key))
  }

  lemma InsertKeepsSorted<V>(c: Chain<Key, V>, e: Element<Key, V>, i: nat)
    requires Sorted(c) && Between(c, e.key, i)
    ensures Sorted(c[..i] + [e] + c[i..])
  {
    hide Less;
  }

  lemma RemoveKeepsSorted<V>(c: Chain<Key, V>, i: nat)
    requires Sorted(c) && i < |c|
    ensures Sorted(c[..i] + c[i + 1..])
  {
    hide Less;
  }

  /** Stopping at the first greater element is sound: in a sorted chain the key cannot come later. */
  lemma EarlyStop<V>(c: Chain<Key, V>, key: Key, i: nat)
    requires Sorted(c) && i <= |c|
    requires forall j :: 0 <= j < i ==> Less(c[j].key, key)
    requires i < |c| ==> Less(key, c[i].key)
    ensures Between(c, key, i) && !HasKey(c, key)
  {
    hide Less;
    forall j | i <= j < |c| ensures Less(key, c[j].key) {
      if i < j { LessTrans(key, c[i].key, c[j].key); }
    }
    Trichotomy(key, key);
  }

  /** An iterator: element i of chain b, or NULL. */
  datatype Position = At(b: nat, i: nat) | Null

  class Table<V> {
    const hash: Key -> nat  // hash_key
    var itemCount: nat
    var buckets: seq<Chain<Key, V>>
    ghost var contents: map<Key, V>

    ghost predicate Valid()
      reads this
    {
      Represents(buckets, hash, contents) && AllSorted(buckets) && itemCount == |contents| < |buckets| < 0x1_0000_0000
    }

    /** hash_create. */
    constructor (hash: Key -> nat)
      ensures Valid() && contents == map[] && this.hash == hash
    {
      this.hash, itemCount, contents := hash, 0, map[];
      buckets := seq(FIRST_SIZE, _ => []);
      new;
      EmptyTable(buckets, hash);
    }

    /** find_element: where the key is, or where it would go. */
    method Find(index: nat, key: Key) returns (found: bool, i: nat)
      requires index < |buckets| && AllSorted(buckets)
      ensures found ==> i < |buckets[index]| && buckets[index][i].key == key
      ensures !found ==> Between(buckets[index], key, i) && !HasKey(buckets[index], key)
    {
      var chain := buckets[index];
      assert Sorted(chain);
      found, i := false, 0;
      while i < |chain|
        invariant i <= |chain| && forall j :: 0 <= j < i ==> Less(chain[j].key, key)
      {
        var cmp := KeyCmp(key, chain[i].key);
        Trichotomy(key, chain[i].key);
        if cmp == 0 {
          return true, i;
        } else if cmp > 0 {
          i := i + 1;
        } else {
          break;
        }
      }
      EarlyStop(chain, key, i);
    }

    /** hash_get. */
    method Get(key: Key) returns (r: Option<V>)
      requires Valid()
      ensures r == Lookup(contents, key)
    {
      var index := Slot(hash(key), |buckets|);
      var found, i := Find(index, key);
      if found {
        PresentKey(buckets, hash, contents, index, i);
        r := Some(buckets[index][i].value);
      } else {
        AbsentKey(buckets, hash, contents, key);
        r := None;
      }
    }

    /** hash_insert: a key that is there keeps its place and gets the new data, and the old data comes back.
        The number of chains is a 32-bit word that doubles, so the table must hold fewer than 2^31 - 1 entries. */
    method Insert(key: Key, data: V) returns (r: Option<V>)
      requires Valid() && itemCount < 0x7FFF_FFFF
      modifies this
      ensures Valid() && contents == old(contents)[key := data] && r == Lookup(old(contents), key)
    {
      var index := Slot(hash(key), |buckets|);
      var found, i := Find(index, key);
      if found {
        PresentKey(buckets, hash, contents, index, i);
        r := Some(buckets[index][i].value);
        Assign(index, i, data);
      } else {
        AbsentKey(buckets, hash, contents, key);
        r := None;
        Link(index, i, Element(key, hash(key), data));
        itemCount := itemCount + 1;
        if itemCount >= |buckets| {
          Resize(|buckets| * 2);
        }
      }
    }

    method Assign(b: nat, i: nat, v: V)
      requires Valid() && b < |buckets| && i < |buckets[b]|
      modifies this
      ensures Valid() && contents == old(contents)[old(buckets[b][i].key) := v]
    {
      hide Represents;
      var chain := buckets[b];
      assert Sorted(chain);
      SetAt(buckets, hash, contents, b, i, v);
      contents := contents[chain[i].key := v];
      buckets := buckets[b := chain[i := chain[i].(value := v)]];
      assert Sorted(buckets[b]);
    }

    /** The linking of a new element into its chain, as in hash_insert and hash_insert_element. */
    method Link(b: nat, i: nat, e: Element<Key, V>)
      requires Represents(buckets, hash, contents) && AllSorted(buckets)
      requires e.hash == hash(e.key) && e.key !in contents && |buckets| > 0 && b == Slot(e.hash, |buckets|)
      requires Between(buckets[b], e.key, i)
      modifies this`buckets, this`contents
      ensures Represents(buckets, hash, contents) && AllSorted(buckets) && |buckets| == old(|buckets|)
      ensures contents == old(contents)[e.key := e.value] && |contents| == old(|contents|) + 1
    {
      var chain := buckets[b];
      assert i <= |chain| && Sorted(chain);
      hide Represents, Between, Sorted;
      InsertNew(buckets, hash, contents, b, i, e);
      InsertKeepsSorted(chain, e, i);
      contents := contents[e.key := e.value];
      buckets := buckets[b := chain[..i] + [e] + chain[i..]];
    }

    /** hash_remove. */
    method Remove(key: Key) returns (r: Option<V>)
      requires Valid()
      modifies this
      ensures Valid() && contents == old(contents) - {key} && r == Lookup(old(contents), key)
    {
      var index := Slot(hash(key), |buckets|);
      var found, i := Find(index, key);
      if found {
        PresentKey(buckets, hash, contents, index, i);
        r := Some(buckets[index][i].value);
        Unlink(index, i);
      } else {
        AbsentKey(buckets, hash, contents, key);
        assert contents - {key} == contents;
        r := None;
      }
    }

    method Unlink(b: nat, i: nat)
      requires Valid() && b < |buckets| && i < |buckets[b]|
      modifies this
      ensures Valid() && contents == old(contents) - {old(buckets[b][i].key)}
    {
      var chain := buckets[b];
      assert Sorted(chain);
      hide Represents, Sorted;
      RemoveAt(buckets, hash, contents, b, i);
      RemoveKeepsSorted(chain, i);
      contents := contents - {chain[i].key};
      buckets := buckets[b := chain[..i] + chain[i + 1..]];
      itemCount := itemCount - 1;
    }

    /** hash_resize: every element moves into the new chains, and none of them meets its own key there. */
    method Resize(size: nat)
      requires Represents(buckets, hash, contents) && itemCount == |contents|
      requires itemCount < size < 0x1_0000_0000
      modifies this
      ensures Valid() && contents == old(contents) && |buckets| == size
    {
      var oldBuckets := buckets;
      ghost var m := contents;
      assert |oldBuckets| > 0;
      buckets := seq(size, _ => []);
      contents := map[];
      EmptyTable(buckets, hash);
      assert AllSorted(buckets);
      MoveAll(oldBuckets, m);
    }

    method MoveAll(oldBuckets: seq<Chain<Key, V>>, ghost m: map<Key, V>)
      requires |oldBuckets| > 0 && Represents(oldBuckets, hash, m)
      requires |buckets| > 0 && contents == map[] && Represents(buckets, hash, contents) && AllSorted(buckets)
      modifies this`buckets, this`contents
      ensures |buckets| == old(|buckets|) && Represents(buckets, hash, contents) && AllSorted(buckets) && contents == m
    {
      MovedNone(oldBuckets, hash, m);
      hide *;
      var i := 0;
      while i < |oldBuckets|
        invariant i <= |oldBuckets| && |buckets| == old(|buckets|)
        invariant Represents(buckets, hash, contents) && AllSorted(buckets)
        invariant Moved(oldBuckets, hash, m, contents, i, 0)
      {
        MoveChain(oldBuckets, m, i);
        i := i + 1;
      }
      MovedAll(oldBuckets, hash, m, contents);
    }

    method MoveChain(oldBuckets: seq<Chain<Key, V>>, ghost m: map<Key, V>, i: nat)
      requires i < |oldBuckets| && Represents(oldBuckets, hash, m)
      requires |buckets| > 0 && Represents(buckets, hash, contents) && AllSorted(buckets)
      requires Moved(oldBuckets, hash, m, contents, i, 0)
      modifies this`buckets, this`contents
      ensures |buckets| == old(|buckets|) && Represents(buckets, hash, contents) && AllSorted(buckets)
      ensures Moved(oldBuckets, hash, m, contents, i + 1, 0)
    {
      hide *;
      var j := 0;
      while j < |oldBuckets[i]|
        invariant j <= |oldBuckets[i]| && |buckets| == old(|buckets|)
        invariant Represents(buckets, hash, contents) && AllSorted(buckets)
        invariant Moved(oldBuckets, hash, m, contents, i, j)
      {
        MovedElement(oldBuckets, hash, m, contents, i, j);
        InsertElement(oldBuckets[i][j]);
        j := j + 1;
      }
      MovedChain(oldBuckets, hash, m, contents, i);
    }

    /** hash_insert_element: the search in the new chain must come back empty. */
    method InsertElement(e: Element<Key, V>)
      requires |buckets| > 0 && Represents(buckets, hash, contents) && AllSorted(buckets)
      requires e.hash == hash(e.key) && e.key !in contents
      modifies this`buckets, this`contents
      ensures |buckets| == old(|buckets|) && Represents(buckets, hash, contents) && AllSorted(buckets)
      ensures contents == old(contents)[e.key := e.value]
    {
      var index := Slot(e.hash, |buckets|);
      var found, i := Find(index, e.key);
      if found {
        PresentKey(buckets, hash, contents, index, i);
        assert false;
      }
      Link(index, i, e);
    }

    ghost predicate Here(at: Position)
      reads this
    {
      at.At? ==> at.b < |buckets| && at.i < |buckets[at.b]|
    }

    /** The elements an iterator and its successors visit. */
    ghost function Rest(at: Position): Chain<Key, V>
      reads this
      requires Here(at)
    {
      if at.At? then From(buckets, at.b, at.i) else []
    }

    /** The elements visited after an iterator; after NULL they are all the table's. */
    ghost function After(at: Position): Chain<Key, V>
      reads this
      requires Here(at)
    {
      if at.At? then From(buckets, at.b, at.i + 1) else Concat(buckets)
    }

    /** hash_next. */
    method Next(at: Position) returns (r: Position)
      requires Valid() && Here(at)
      ensures Here(r) && Rest(r) == After(at)
    {
      hide Represents, AllSorted, From;
      FromStart(buckets);
      var next: nat := 0;
      if at.At? {
        if at.i + 1 < |buckets[at.b]| {
          return At(at.b, at.i + 1);
        }
        PresentKey(buckets, hash, contents, at.b, at.i);
        FromNextChain(buckets, at.b);
        next := Slot(buckets[at.b][at.i].hash, |buckets|) + 1;
      }
      while next < |buckets|
        invariant next <= |buckets| && From(buckets, next, 0) == After(at)
      {
        if |buckets[next]| > 0 {
          return At(next, 0);
        }
        FromNextChain(buckets, next);
        next := next + 1;
      }
      FromEnd(buckets);
      return Null;
    }

    /** A loop over hash_next visits every entry of the map once. */
    method Walk() returns (out: Chain<Key, V>)
      requires Valid()
      ensures out == Concat(buckets) && |out| == |contents| && Distinct(out)
      ensures forall i :: 0 <= i < |out| ==> Lookup(contents, out[i].key) == Some(out[i].value)
      ensures forall k :: k in contents ==> HasKey(out, k)
    {
      out := Visit();
      WalkIsMap(buckets, hash, contents);
    }

    method Visit() returns (out: Chain<Key, V>)
      requires Valid()
      ensures out == Concat(buckets)
    {
      hide Represents, AllSorted, From, Concat;
      out := [];
      var at := Next(Null);
      ghost var rest := Rest(at);
      assert out + rest == rest;
      while at.At?
        invariant Here(at) && rest == Rest(at) && out + rest == Concat(buckets)
        decreases |rest|
      {
        FromElement(buckets, at.b, at.i);
        ghost var later := After(at);
        Assoc(out, [buckets[at.b][at.i]], later);
        out := out + [buckets[at.b][at.i]];
        at := Next(at);
        rest := later;
      }
      assert out + rest == out;
    }
  }
}
