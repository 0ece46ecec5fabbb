/**
  The circular intrusive list of framework/dlist.h. A list is a pointer to its first node; the ring of prev and
  next pointers stands for the sequence of nodes from there on.
 */
module Dlist {

  class Node {
    var prev: Node?
    var next: Node?

    /** dlist_init. */
    constructor ()
      ensures prev == null && next == null
    {
      prev, next := null, null;
    }
  }

  ghost predicate Distinct(list: seq<Node>) {
    forall i, j :: 0 <= i < j < |list| ==> list[i] != list[j]
  }

  ghost predicate Link(a: Node, b: Node)
    reads a, b
  {
    a.next == b && b.prev == a
  }

  /** Each node is linked with the following one, and the last one with the first. */
  ghost predicate Linked(list: seq<Node>)
    reads list
  {
    && (forall i :: 0 <= i < |list| - 1 ==> Link(list[i], list[i + 1]))
    && (list != [] ==> Link(list[|list| - 1], list[0]))
  }

  ghost predicate Ring(l: Node?, list: seq<Node>)
    reads list
  {
    && (if list == [] then l == null else l == list[0])
    && Distinct(list) && Linked(list)
  }

  /** The list with a node put in at place j. */
  ghost function With(list: seq<Node>, j: nat, n: Node): seq<Node>
    requires j <= |list|
  {
    list[..j] + [n] + list[j..]
  }

  /** dlist_insert_before node k: in front of it, which for the first node is behind the last one. */
  method InsertBefore(l: Node, n: Node, ghost list: seq<Node>, ghost k: nat)
    requires Distinct(list) && Linked(list) && k < |list| && list[k] == l && n !in list && n.next == null && n.prev == null
    modifies n, list
    ensures var all := With(list, if k == 0 then |list| else k, n); Distinct(all) && Linked(all)
  {
    ghost var m, j := |list|, if k == 0 then |list| else k;
    assert Link(list[j - 1], l);
    n.next := l;
    n.prev := l.prev;
    l.prev.next := n;
    l.prev := n;
    ghost var all := With(list, j, n);
    forall i | 0 <= i < m ensures Link(all[i], all[i + 1]) {
      if i < j - 1 {
        assert old(Link(list[i], list[i + 1])) && all[i] == list[i] && all[i + 1] == list[i + 1];
      } else if i > j {
        assert old(Link(list[i - 1], list[i])) && all[i] == list[i - 1] && all[i + 1] == list[i];
      }
    }
    assert old(Link(list[m - 1], list[0]));
  }

  /** dlist_insert_after node k. */
  method InsertAfter(l: Node, n: Node, ghost list: seq<Node>, ghost k: nat)
    requires Distinct(list) && Linked(list) && k < |list| && list[k] == l && n !in list && n.next == null && n.prev == null
    modifies n, list
    ensures Distinct(With(list, k + 1, n)) && Linked(With(list, k + 1, n))
  {
    ghost var m, j, q := |list|, k + 1, if k == |list| - 1 then 0 else k + 1;
    assert Link(l, list[q]);
    n.prev := l;
    n.next := l.next;
    l.next.prev := n;
    l.next := n;
    ghost var all := With(list, j, n);
    forall i | 0 <= i < m ensures Link(all[i], all[i + 1]) {
      if i < j - 1 {
        assert old(Link(list[i], list[i + 1])) && all[i] == list[i] && all[i + 1] == list[i + 1];
      } else if i > j {
        assert old(Link(list[i - 1], list[i])) && all[i] == list[i - 1] && all[i + 1] == list[i];
      }
    }
    assert old(Link(list[m - 1], list[0]));
  }

  /** dlist_insert_tail. */
  method InsertTail(l: Node?, n: Node, ghost list: seq<Node>) returns (l': Node)
    requires Ring(l, list) && n !in list && n.next == null && n.prev == null
    modifies n, list
    ensures Ring(l', list + [n])
  {
    if l == null {
      n.prev := n;
      n.next := n;
      l' := n;
    } else {
      InsertBefore(l, n, list, 0);
      assert With(list, |list|, n) == list + [n];
      l' := l;
    }
  }

  /** dlist_insert_head: the same place in the ring, but the list now starts there. */
  method InsertHead(l: Node?, n: Node, ghost list: seq<Node>) returns (l': Node)
    requires Ring(l, list) && n !in list && n.next == null && n.prev == null
    modifies n, list
    ensures Ring(l', [n] + list)
  {
    if l == null {
      n.prev := n;
      n.next := n;
      l' := n;
    } else {
      InsertBefore(l, n, list, 0);
      assert With(list, |list|, n) == list + [n];
      RotateRing(list, n);
      l' := n;
    }
  }

  /** A ring may be entered at its last node. */
  lemma RotateRing(list: seq<Node>, n: Node)
    requires Distinct(list + [n]) && Linked(list + [n])
    ensures Distinct([n] + list) && Linked([n] + list)
  {
    var a, b, m := list + [n], [n] + list, |list|;
    forall i | 0 <= i < m ensures Link(b[i], b[i + 1]) {
      if i == 0 { assert Link(a[m], a[0]) && b[1] == a[0]; } else { assert Link(a[i - 1], a[i]) && b[i] == a[i - 1] && b[i + 1] == a[i]; }
    }
    if m > 0 { assert Link(a[m - 1], a[m]) && b[m] == a[m - 1]; }
    forall i, j | 0 <= i < j <= m ensures b[i] != b[j] {
      assert a[j - 1] == b[j] && a[if i == 0 then m else i - 1] == b[i];
    }
  }

  function Before(k: nat, m: nat): int { if k == 0 then m - 1 else k - 1 }

  function After(k: nat, m: nat): int { if k == m - 1 then 0 else k + 1 }

  /** All links but those of node k, and its neighbours linked with each other. */
  ghost predicate LinkedAround(list: seq<Node>, k: nat)
    requires k < |list|
    reads list
  {
    && (forall i :: 0 <= i < |list| - 1 && i != k && i + 1 != k ==> Link(list[i], list[i + 1]))
    && (0 < k < |list| - 1 ==> Link(list[|list| - 1], list[0]))
    && Link(list[Before(k, |list|)], list[After(k, |list|)])
  }

  lemma Skipped(list: seq<Node>, k: nat)
    requires Distinct(list) && k < |list| && |list| > 1 && LinkedAround(list, k)
    ensures Distinct(list[..k] + list[k + 1..]) && Linked(list[..k] + list[k + 1..])
  {
    var rest, m := list[..k] + list[k + 1..], |list|;
    forall i | 0 <= i < m - 2 ensures Link(rest[i], rest[i + 1]) {
      if i + 1 == k {
        assert rest[i] == list[k - 1] && rest[i + 1] == list[k + 1];
      } else {
        var j := if i < k then i else i + 1;
        assert rest[i] == list[j] && rest[i + 1] == list[j + 1] && Link(list[j], list[j + 1]);
      }
    }
    assert rest[m - 2] == list[if k == m - 1 then m - 2 else m - 1] && rest[0] == list[if k == 0 then 1 else 0];
  }

  /** The list without its node k. */
  ghost function Without(list: seq<Node>, k: nat): seq<Node> {
    if k < |list| then list[..k] + list[k + 1..] else list
  }

  /** dlist_remove: of node k of the list, or of a node that is in no list, which changes nothing. */
  method Remove(l: Node?, n: Node, ghost list: seq<Node>, ghost k: nat) returns (l': Node?)
    requires Ring(l, list)
    requires if k < |list| then list[k] == n else n !in list && n.next != n && (n.next == null || n.prev == null)
    modifies n, list
    ensures Ring(l', Without(list, k)) && n.next == null && n.prev == null
  {
    ghost var m := |list|;
    ghost var p, q := Before(k, m), After(k, m);
    assert k < m ==> Link(list[p], n) && Link(n, list[q]);
    if n.next == n {
      l' := null;
      n.next, n.prev := null, null;
      return;
    }
    if n.next == null || n.prev == null {
      n.next, n.prev := null, null;
      forall i | 0 <= i < m - 1 ensures Link(list[i], list[i + 1]) {
        assert old(Link(list[i], list[i + 1]));
      }
      return l;
    }
    assert p != k && q != k && m > 1;
    n.next.prev := n.prev;
    n.prev.next := n.next;
    l' := if l == n then n.next else l;
    n.next, n.prev := null, null;
    forall i | 0 <= i < m - 1 && i != k && i + 1 != k ensures Link(list[i], list[i + 1]) {
      assert old(Link(list[i], list[i + 1])) && i != p && i + 1 != q;
    }
    assert LinkedAround(list, k);
    Skipped(list, k);
  }

  /** Taking the first node until none is left, as the timers of a slot are: every node once, in order. */
  method Drain(l: Node?, ghost list: seq<Node>) returns (out: seq<Node>)
    requires Ring(l, list)
    modifies list
    ensures out == list
  {
    var head := l;
    ghost var left := list;
    out := [];
    while head != null
      invariant out + left == list && Ring(head, left)
      invariant forall i :: 0 <= i < |left| ==> left[i] in list
      decreases |left|
    {
      var n: Node := head;
      hide Distinct, Linked;
      head := RemoveFirst(n, left);
      TakeFirst(out, left);
      out, left := out + [n], left[1..];
    }
    assert left == [];
  }

  method RemoveFirst(l: Node, ghost list: seq<Node>) returns (l': Node?)
    requires Ring(l, list)
    modifies list
    ensures list != [] && list[0] == l && Ring(l', list[1..])
  {
    assert list != [] && list[0] == l;
    assert Without(list, 0) == list[1..];
    hide *;
    l' := Remove(l, l, list, 0);
  }

  lemma TakeFirst(out: seq<Node>, left: seq<Node>)
    requires left != []
    ensures out + left == (out + [left[0]]) + left[1..]
  {
  }

  /** dlist_next: the first node after NULL, NULL after the last one. */
  method Next(head: Node?, cur: Node?, ghost list: seq<Node>, ghost k: nat) returns (r: Node?)
    requires Ring(head, list)
    requires if cur == null then k == 0 else 0 < k <= |list| && list[k - 1] == cur
    ensures if k < |list| then r == list[k] else r == null
  {
    if head == null || cur == null {
      r := head;
    } else {
      r := if cur.next != head then cur.next else null;
    }
  }

  /** dlist_prev: the last node before NULL, NULL before the first one. */
  method Prev(head: Node?, cur: Node?, ghost list: seq<Node>, ghost k: nat) returns (r: Node?)
    requires Ring(head, list)
    requires if cur == null then k == |list| else k < |list| && list[k] == cur
    ensures if k > 0 then r == list[k - 1] else r == null
  {
    assert 0 < k < |list| ==> Link(list[k - 1], list[k]);
    if head == null || cur == head {
      r := null;
    } else {
      r := if cur == null then head.prev else cur.prev;
    }
  }
}
