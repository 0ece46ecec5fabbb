/** The sorted node index of thirdpart/mxml-2.7/mxml-index.c. */
module XmlIndex {
  import opened Wrappers

  type Text = seq<nat>  // the characters of a C string

  /** An element node: its name, and the value of the attribute the index was built with. */
  datatype Node = Node(id: nat, name: Text, attr: Text)

  // ---------- comparison ----------

  /** The sign of strcmp. */
  function StrCmp(a: Text, b: Text): (c: int)
    ensures -1 <= c <= 1
  {
    if a == [] then (if b == [] then 0 else -1)
    else if b == [] then 1
    else if a[0] < b[0] then -1
    else if a[0] > b[0] then 1
    else StrCmp(a[1..], b[1..])
  }

  /** index_compare; byAttr says whether the index has an attribute. */
  function Compare(byAttr: bool, a: Node, b: Node): (c: int)
    ensures -1 <= c <= 1
  {
    var d := StrCmp(a.name, b.name);
    if d != 0 then d else if byAttr then StrCmp(a.attr, b.attr) else 0
  }

  /** The name and the value asked for, if any, are those of the node. */
  predicate Fits(element: Option<Text>, value: Option<Text>, n: Node) {
    (element.Some? ==> n.name == element.value) && (value.Some? ==> n.attr == value.value)
  }

  /** index_find: compare the search key with a node; 0 exactly for a node that fits. */
  function FindCmp(element: Option<Text>, value: Option<Text>, n: Node): (c: int)
    ensures -1 <= c <= 1 && (c == 0 <==> Fits(element, value, n))
  {
    var d := if element.Some? then StrCmp(element.value, n.name) else 0;
    assert d == 0 <==> (element.Some? ==> n.name == element.value) by {
      if element.Some? { StrCmpZero(element.value, n.name); }
    }
    if d != 0 then d
    else if value.Some? then
      StrCmpZero(value.value, n.attr);
      StrCmp(value.value, n.attr)
    else 0
  }

  /** The order of a dictionary: at the first place where they differ the smaller byte comes first, and so
      does a text that ends there. */
  ghost predicate Precedes(a: Text, b: Text) {
    exists k :: 0 <= k <= |a| && k < |b| && a[..k] == b[..k] && (k == |a| || a[k] < b[k])
  }

  lemma {:induction false} StrCmpIs(a: Text, b: Text)
    ensures StrCmp(a, b) < 0 <==> Precedes(a, b)
  {
    if a == [] {
      if b != [] { assert a[..0] == b[..0]; }
    } else if b != [] {
      if a[0] == b[0] {
        StrCmpIs(a[1..], b[1..]);
        StrCmpCons(a, b);
      } else {
        assert a[..0] == b[..0];
        assert forall k :: 0 < k <= |a| && k < |b| ==> a[..k][0] != b[..k][0];
      }
    }
  }

  lemma StrCmpCons(a: Text, b: Text)
    requires a != [] && b != [] && a[0] == b[0]
    ensures Precedes(a, b) <==> Precedes(a[1..], b[1..])
  {
    var a', b' := a[1..], b[1..];
    if Precedes(a, b) {
      var k :| 0 <= k <= |a| && k < |b| && a[..k] == b[..k] && (k == |a| || a[k] < b[k]);
      assert k > 0 && a'[..k - 1] == a[..k][1..] && b'[..k - 1] == b[..k][1..];
    }
    if Precedes(a', b') {
      var k :| 0 <= k <= |a'| && k < |b'| && a'[..k] == b'[..k] && (k == |a'| || a'[k] < b'[k]);
      assert a[..k + 1] == [a[0]] + a'[..k] && b[..k + 1] == [b[0]] + b'[..k];
    }
  }

  lemma {:induction false} StrCmpZero(a: Text, b: Text)
    ensures StrCmp(a, b) == 0 <==> a == b
    ensures StrCmp(a, b) == -StrCmp(b, a)
  {
    if a != [] && b != [] && a[0] == b[0] {
      StrCmpZero(a[1..], b[1..]);
      assert a == [a[0]] + a[1..] && b == [b[0]] + b[1..];
    }
  }

  lemma {:induction false} StrCmpTrans(a: Text, b: Text, c: Text)
    requires StrCmp(a, b) <= 0 && StrCmp(b, c) <= 0
    ensures StrCmp(a, c) <= 0
  {
    if a != [] && b != [] && c != [] && a[0] == b[0] == c[0] {
      StrCmpTrans(a[1..], b[1..], c[1..]);
    }
  }

  ghost predicate Le(byAttr: bool, a: Node, b: Node) {
    Compare(byAttr, a, b) <= 0
  }

  lemma LeTotal(byAttr: bool, a: Node, b: Node)
    ensures Le(byAttr, a, b) || Le(byAttr, b, a)
    ensures Le(byAttr, a, a) && Compare(byAttr, a, b) == -Compare(byAttr, b, a)
  {
    StrCmpZero(a.name, b.name);
    StrCmpZero(a.attr, b.attr);
    StrCmpZero(a.name, a.name);
    StrCmpZero(a.attr, a.attr);
  }

  lemma LeTrans(byAttr: bool, a: Node, b: Node, c: Node)
    requires Le(byAttr, a, b) && Le(byAttr, b, c)
    ensures Le(byAttr, a, c)
  {
    StrCmpZero(a.name, b.name);
    StrCmpZero(b.name, c.name);
    StrCmpZero(a.name, c.name);
    StrCmpTrans(a.name, b.name, c.name);
    if a.name == b.name == c.name && byAttr { StrCmpTrans(a.attr, b.attr, c.attr); }
    if StrCmp(a.name, c.name) == 0 { StrCmpZero(b.name, a.name); }
  }

  // ---------- sorted sequences ----------

  ghost predicate Sorted(byAttr: bool, s: seq<Node>) {
    forall i, j :: 0 <= i < j < |s| ==> Le(byAttr, s[i], s[j])
  }

  ghost predicate AllLe(byAttr: bool, s: seq<Node>, t: seq<Node>) {
    forall x, y :: x in s && y in t ==> Le(byAttr, x, y)
  }

  /** What sorted means: names in the order of a dictionary, and nodes of one name by their attribute values. */
  lemma SortedMeans(byAttr: bool, s: seq<Node>)
    ensures Sorted(byAttr, s) <==> forall i, j :: 0 <= i < j < |s| ==> InOrder(byAttr, s[i], s[j])
  {
    forall i, j | 0 <= i < j < |s| ensures Le(byAttr, s[i], s[j]) <==> InOrder(byAttr, s[i], s[j]) {
      LeMeans(byAttr, s[i], s[j]);
    }
  }

  ghost predicate InOrder(byAttr: bool, a: Node, b: Node) {
    !Precedes(b.name, a.name) && (byAttr && a.name == b.name ==> !Precedes(b.attr, a.attr))
  }

  lemma LeMeans(byAttr: bool, a: Node, b: Node)
    ensures Le(byAttr, a, b) <==> InOrder(byAttr, a, b)
  {
    StrCmpIs(b.name, a.name);
    StrCmpIs(b.attr, a.attr);
    StrCmpZero(a.name, b.name);
    StrCmpZero(a.attr, b.attr);
    hide StrCmp, Precedes;
  }

  lemma SortedAppend(byAttr: bool, s: seq<Node>, t: seq<Node>)
    requires Sorted(byAttr, s) && Sorted(byAttr, t) && AllLe(byAttr, s, t)
    ensures Sorted(byAttr, s + t)
  {
    hide Le;
    forall i, j | 0 <= i < j < |s + t| ensures Le(byAttr, (s + t)[i], (s + t)[j]) {
      if i < |s| <= j { assert s[i] in s && t[j - |s|] in t; }
    }
  }

  lemma AllLePermuted(byAttr: bool, s: seq<Node>, t: seq<Node>, s': seq<Node>, t': seq<Node>)
    requires AllLe(byAttr, s, t) && multiset(s) == multiset(s') && multiset(t) == multiset(t')
    ensures AllLe(byAttr, s', t')
  {
    hide Le;
    forall x, y | x in s' && y in t' ensures Le(byAttr, x, y) {
      assert x in multiset(s) && y in multiset(t);
    }
  }

  // ---------- permutations inside an array ----------

  /** Within lo..hi the sequence was permuted, outside it is the same. */
  ghost predicate Permuted(s: seq<Node>, t: seq<Node>, lo: nat, hi: nat) {
    && |s| == |t| && lo <= hi <= |s|
    && t[..lo] == s[..lo] && t[hi..] == s[hi..]
    && multiset(t[lo..hi]) == multiset(s[lo..hi])
  }

  lemma Cut(s: seq<Node>, lo: nat, mid: nat, hi: nat)
    requires lo <= mid <= hi <= |s|
    ensures s[lo..hi] == s[lo..mid] + s[mid..hi]
  {
  }

  lemma PermutedTrans(s: seq<Node>, t: seq<Node>, u: seq<Node>, lo: nat, hi: nat)
    requires Permuted(s, t, lo, hi) && Permuted(t, u, lo, hi)
    ensures Permuted(s, u, lo, hi)
  {
  }

  /** A permutation of a part is a permutation of the whole. */
  lemma PermutedWiden(s: seq<Node>, t: seq<Node>, lo: nat, hi: nat, lo': nat, hi': nat)
    requires Permuted(s, t, lo, hi) && lo' <= lo && hi <= hi' <= |s|
    ensures Permuted(s, t, lo', hi')
    ensures t[lo'..lo] == s[lo'..lo] && t[hi..hi'] == s[hi..hi']
  {
    assert t[..lo'] == t[..lo][..lo'] && s[..lo'] == s[..lo][..lo'];
    assert t[hi'..] == t[hi..][hi' - hi..] && s[hi'..] == s[hi..][hi' - hi..];
    assert t[lo'..lo] == t[..lo][lo'..] && s[lo'..lo] == s[..lo][lo'..];
    assert t[hi..hi'] == t[hi..][..hi' - hi] && s[hi..hi'] == s[hi..][..hi' - hi];
    Cut(s, lo', lo, hi');
    Cut(s, lo, hi, hi');
    Cut(t, lo', lo, hi');
    Cut(t, lo, hi, hi');
  }

  lemma SwapPermuted(s: seq<Node>, i: nat, j: nat, lo: nat, hi: nat)
    requires lo <= i <= j < hi <= |s|
    ensures Permuted(s, s[i := s[j]][j := s[i]], lo, hi)
  {
    var t := s[i := s[j]][j := s[i]];
    var m: seq<Node>, k, l := s[lo..hi], i - lo, j - lo;
    var w: seq<Node> := m[k := m[l]][l := m[k]];
    assert t[lo..hi] == w;
    assert multiset(w) == multiset(m);
  }

  /** While index_sort splits lo..hi: up to l everything is at most the pivot, behind r everything is above
      it, and the pivot itself is still in front. */
  ghost predicate Splitting(byAttr: bool, s: seq<Node>, pivot: Node, lo: nat, hi: nat, l: nat, r: nat) {
    && lo <= l <= hi < |s| && lo <= r <= hi && s[lo] == pivot
    && (forall j :: lo <= j < l ==> Le(byAttr, s[j], pivot))
    && (forall j :: r < j <= hi ==> !Le(byAttr, s[j], pivot))
  }

  lemma SplitSwap(byAttr: bool, s: seq<Node>, pivot: Node, lo: nat, hi: nat, l: nat, r: nat)
    requires Splitting(byAttr, s, pivot, lo, hi, l, r) && lo < l < r && Le(byAttr, s[r], pivot)
    ensures Splitting(byAttr, s[l := s[r]][r := s[l]], pivot, lo, hi, l, r)
  {
    hide Le;
  }

  /** The pivot goes where the two sides met. */
  lemma SplitDone(byAttr: bool, s: seq<Node>, pivot: Node, lo: nat, hi: nat, l: nat, p: nat, t: seq<Node>)
    requires Splitting(byAttr, s, pivot, lo, hi, l, p) && p <= l && Le(byAttr, s[p], pivot)
    requires t == if Compare(byAttr, pivot, s[p]) > 0 then s[lo := s[p]][p := pivot] else s
    ensures |t| == |s| && AllLe(byAttr, t[lo..p], [t[p]]) && AllLe(byAttr, [t[p]], t[p + 1..hi + 1])
  {
    LeTotal(byAttr, pivot, t[p]);
    assert Le(byAttr, pivot, t[p]) && Le(byAttr, t[p], pivot);
    forall x | x in t[lo..p] ensures Le(byAttr, x, t[p]) {
      var j :| lo <= j < p && t[j] == x;
      assert Le(byAttr, x, pivot);
      LeTrans(byAttr, x, pivot, t[p]);
    }
    forall y | y in t[p + 1..hi + 1] ensures Le(byAttr, t[p], y) {
      var j :| p < j <= hi && t[j] == y;
      assert y == s[j] && !Le(byAttr, y, pivot);
      LeTotal(byAttr, pivot, y);
      LeTrans(byAttr, t[p], pivot, y);
    }
  }

  // ---------- searching ----------

  /** Going through the nodes, the search key falls from above them through equal to below them. */
  ghost predicate Falling(e: Option<Text>, v: Option<Text>, s: seq<Node>) {
    forall i, j :: 0 <= i < j < |s| ==> FindCmp(e, v, s[i]) >= FindCmp(e, v, s[j])
  }

  /** What a linear filter selects. */
  function Matches(e: Option<Text>, v: Option<Text>, s: seq<Node>): (r: seq<Node>) {
    if s == [] then []
    else if Fits(e, v, s[0]) then [s[0]] + Matches(e, v, s[1..])
    else Matches(e, v, s[1..])
  }

  lemma {:induction false} InMatches(e: Option<Text>, v: Option<Text>, s: seq<Node>, n: Node)
    ensures n in Matches(e, v, s) <==> n in s && Fits(e, v, n)
  {
    if s != [] { InMatches(e, v, s[1..], n); }
  }

  /** The matching nodes in front. */
  function Run(e: Option<Text>, v: Option<Text>, s: seq<Node>): (r: seq<Node>)
    ensures r <= s
  {
    if s == [] || FindCmp(e, v, s[0]) != 0 then [] else [s[0]] + Run(e, v, s[1..])
  }

  /** r is the first of what was left, or NULL when nothing was. */
  ghost predicate Takes(was: seq<Node>, r: Option<Node>, left: seq<Node>) {
    if was == [] then r == None && left == [] else r == Some(was[0]) && left == was[1..]
  }

  /** r is a node behind cur that fits and the first of what was left, or NULL. */
  ghost predicate Answers(e: Option<Text>, v: Option<Text>, s: seq<Node>, cur: nat, r: Option<Node>, cur': nat) {
    && cur <= cur' <= |s| && (r.Some? ==> cur < cur' && r.value == s[cur' - 1] && Fits(e, v, r.value))
    && Takes(Left(e, v, s, cur), r, Left(e, v, s, cur'))
  }

  /** From a match, step back to the first of its neighbours that match too. */
  function BackUp(e: Option<Text>, v: Option<Text>, s: seq<Node>, k: nat): (r: nat)
    requires k < |s| && FindCmp(e, v, s[k]) == 0
    ensures r <= k && FindCmp(e, v, s[r]) == 0 && (r > 0 ==> FindCmp(e, v, s[r - 1]) != 0)
  {
    if k > 0 && FindCmp(e, v, s[k - 1]) == 0 then BackUp(e, v, s, k - 1) else k
  }

  /** The search for the first match by halving first..last; nothing found is |s|. */
  function Search(e: Option<Text>, v: Option<Text>, s: seq<Node>, first: nat, last: nat): (k: nat)
    requires first <= last < |s|
    ensures k == |s| || (k < |s| && FindCmp(e, v, s[k]) == 0)
    decreases last - first
  {
    if last - first > 1 then
      var current := (first + last) / 2;
      var d := FindCmp(e, v, s[current]);
      if d == 0 then BackUp(e, v, s, current)
      else if d < 0 then Search(e, v, s, first, current)
      else Search(e, v, s, current, last)
    else if FindCmp(e, v, s[first]) == 0 then first
    else if FindCmp(e, v, s[last]) == 0 then last
    else |s|
  }

  /** All that repeated searches return: the first match that halving finds, and the run behind it. */
  ghost function Found(e: Option<Text>, v: Option<Text>, s: seq<Node>): (r: seq<Node>) {
    if s == [] then [] else Run(e, v, s[Search(e, v, s, 0, |s| - 1)..])
  }

  /** What a search has still to return when cur_node is cur. */
  ghost function Left(e: Option<Text>, v: Option<Text>, s: seq<Node>, cur: nat): (r: seq<Node>)
    requires cur <= |s|
  {
    if cur == 0 then Found(e, v, s) else Run(e, v, s[cur..])
  }

  /** When the key falls along the nodes, halving finds the first match, or that there is none. */
  lemma {:induction false} SearchFindsFirst(e: Option<Text>, v: Option<Text>, s: seq<Node>, first: nat, last: nat)
    requires first <= last < |s| && Falling(e, v, s)
    requires first > 0 ==> FindCmp(e, v, s[first]) > 0
    requires last < |s| - 1 ==> FindCmp(e, v, s[last]) < 0
    ensures NoneBefore(e, v, s, Search(e, v, s, first, last))
    decreases last - first
  {
    hide FindCmp, Falling, NoneBefore;
    if last - first > 1 {
      var current := (first + last) / 2;
      var d := FindCmp(e, v, s[current]);
      if d == 0 {
        FirstOfRun(e, v, s, BackUp(e, v, s, current));
      } else if d < 0 {
        SearchFindsFirst(e, v, s, first, current);
      } else {
        SearchFindsFirst(e, v, s, current, last);
      }
    } else {
      FirstOfTwo(e, v, s, first, last);
    }
  }

  ghost predicate NoneBefore(e: Option<Text>, v: Option<Text>, s: seq<Node>, k: nat) {
    k <= |s| && forall i :: 0 <= i < k ==> FindCmp(e, v, s[i]) != 0
  }

  lemma FirstOfRun(e: Option<Text>, v: Option<Text>, s: seq<Node>, k: nat)
    requires Falling(e, v, s) && k < |s| && FindCmp(e, v, s[k]) == 0 && (k > 0 ==> FindCmp(e, v, s[k - 1]) != 0)
    ensures NoneBefore(e, v, s, k)
  {
    hide FindCmp;
    assert k > 0 ==> FindCmp(e, v, s[k - 1]) > 0;
  }

  lemma FirstOfTwo(e: Option<Text>, v: Option<Text>, s: seq<Node>, first: nat, last: nat)
    requires first <= last < |s| && last - first <= 1 && Falling(e, v, s)
    requires first > 0 ==> FindCmp(e, v, s[first]) > 0
    requires last < |s| - 1 ==> FindCmp(e, v, s[last]) < 0
    ensures NoneBefore(e, v, s, first) && (FindCmp(e, v, s[first]) != 0 ==> NoneBefore(e, v, s, last))
    ensures FindCmp(e, v, s[first]) != 0 && FindCmp(e, v, s[last]) != 0 ==> NoneBefore(e, v, s, |s|)
  {
    hide FindCmp;
  }

  /** Nodes that do not match add nothing in front. */
  lemma {:induction false} MatchesSkip(e: Option<Text>, v: Option<Text>, s: seq<Node>, k: nat)
    requires NoneBefore(e, v, s, k)
    ensures Matches(e, v, s) == Matches(e, v, s[k..])
  {
    hide FindCmp;
    if k > 0 {
      MatchesSkip(e, v, s[1..], k - 1);
      assert s[1..][k - 1..] == s[k..];
    } else {
      assert s[k..] == s;
    }
  }

  /** From the first match on, the matches are the run in front. */
  lemma {:induction false} MatchesAreRun(e: Option<Text>, v: Option<Text>, s: seq<Node>)
    requires Falling(e, v, s) && (s != [] ==> FindCmp(e, v, s[0]) <= 0)
    ensures Matches(e, v, s) == Run(e, v, s)
  {
    hide FindCmp;
    if s != [] {
      if FindCmp(e, v, s[0]) == 0 {
        MatchesAreRun(e, v, s[1..]);
      } else {
        MatchesSkip(e, v, s, |s|);
      }
    }
  }

  /** In a sorted index the key of a search by element name, or by name and attribute value, falls. */
  lemma SortedFalls(byAttr: bool, s: seq<Node>, e: Option<Text>, v: Option<Text>)
    requires Sorted(byAttr, s) && (v.Some? ==> byAttr && e.Some?)
    ensures Falling(e, v, s)
  {
    forall i, j | 0 <= i < j < |s| ensures FindCmp(e, v, s[i]) >= FindCmp(e, v, s[j]) {
      assert Le(byAttr, s[i], s[j]);
      if e.Some? { KeyFalls(byAttr, s[i], s[j], e.value, v); }
    }
  }

  lemma KeyFalls(byAttr: bool, a: Node, b: Node, e: Text, v: Option<Text>)
    requires Le(byAttr, a, b) && (v.Some? ==> byAttr)
    ensures FindCmp(Some(e), v, a) >= FindCmp(Some(e), v, b)
  {
    var key := Node(0, e, if v.Some? then v.value else []);
    assert Le(v.Some?, a, b);
    assert FindCmp(Some(e), v, a) == Compare(v.Some?, key, a) && FindCmp(Some(e), v, b) == Compare(v.Some?, key, b);
    LeTotal(v.Some?, key, a);
    LeTotal(v.Some?, key, b);
    if Le(v.Some?, key, a) { LeTrans(v.Some?, key, a, b); }
    if Le(v.Some?, b, key) { LeTrans(v.Some?, a, b, key); }
  }

  /** Where the key falls, repeated searches return what a linear filter selects. */
  lemma FallingFindsAll(e: Option<Text>, v: Option<Text>, s: seq<Node>)
    requires Falling(e, v, s)
    ensures Found(e, v, s) == Matches(e, v, s)
  {
    hide FindCmp, Falling;
    if s != [] {
      var k := Search(e, v, s, 0, |s| - 1);
      SearchFindsFirst(e, v, s, 0, |s| - 1);
      MatchesSkip(e, v, s, k);
      FallingSuffix(e, v, s, k);
      assert k < |s| ==> s[k..][0] == s[k];
      MatchesAreRun(e, v, s[k..]);
    }
  }

  // ---------- searching by attribute value alone ----------

  /** The attribute values do not decrease along the index. */
  ghost predicate Rising(s: seq<Node>) {
    forall i, j :: 0 <= i < j < |s| ==> StrCmp(s[i].attr, s[j].attr) <= 0
  }

  /** Whatever value is searched for, the searches return what a linear filter selects. */
  ghost predicate FindsEveryValue(s: seq<Node>) {
    forall v: Text :: Found(None, Some(v), s) == Matches(None, Some(v), s)
  }

  lemma StrictTrans(a: Text, b: Text, c: Text)
    requires StrCmp(a, b) > 0 && StrCmp(b, c) >= 0
    ensures StrCmp(a, c) > 0
  {
    StrCmpZero(a, b);
    StrCmpZero(b, c);
    StrCmpZero(a, c);
    StrCmpTrans(c, b, a);
    if a == c { StrCmpZero(b, a); }
  }

  lemma RisingFalls(s: seq<Node>, v: Text)
    requires Rising(s)
    ensures Falling(None, Some(v), s)
  {
    forall i, j | 0 <= i < j < |s| ensures FindCmp(None, Some(v), s[i]) >= FindCmp(None, Some(v), s[j]) {
      var a, b := s[i].attr, s[j].attr;
      assert StrCmp(a, b) <= 0;
      StrCmpZero(v, a);
      StrCmpZero(v, b);
      if StrCmp(v, a) <= 0 { StrCmpTrans(v, a, b); }
      if StrCmp(b, v) <= 0 { StrCmpTrans(a, b, v); }
    }
  }

  /** Of two nodes the first is looked at, then the second. */
  lemma TwoAreFound(e: Option<Text>, v: Option<Text>, s: seq<Node>)
    requires |s| <= 2
    ensures Found(e, v, s) == Matches(e, v, s)
  {
    hide FindCmp;
    if |s| == 1 {
      assert s[1..] == [];
    } else if |s| == 2 {
      var t := s[1..];
      assert t[0] == s[1] && t[1..] == [] && s[2..] == [] && s[0..] == s;
      var r := if FindCmp(e, v, s[1]) == 0 then [s[1]] else [];
      assert Matches(e, v, t) == r && Run(e, v, t) == r;
    }
  }

  /** Values that fall somewhere fall between two neighbours. */
  lemma {:induction false} Descent(s: seq<Node>, i: nat, j: nat) returns (d: nat)
    requires i < j < |s| && StrCmp(s[i].attr, s[j].attr) > 0
    ensures d + 1 < |s| && StrCmp(s[d].attr, s[d + 1].attr) > 0
    decreases j - i
  {
    if StrCmp(s[i].attr, s[i + 1].attr) > 0 {
      d := i;
    } else {
      var a, b, c := s[i].attr, s[i + 1].attr, s[j].attr;
      StrCmpZero(a, b);
      StrCmpZero(b, c);
      StrCmpZero(a, c);
      if StrCmp(b, c) <= 0 { StrCmpTrans(a, b, c); }
      d := Descent(s, i + 1, j);
    }
  }

  /** Node j matches v but is not in the run that starts at k. */
  ghost predicate Misses(v: Text, s: seq<Node>, k: nat, j: nat) {
    && j < |s| && FindCmp(None, Some(v), s[j]) == 0
    && (k > j || exists m :: k <= m < j && FindCmp(None, Some(v), s[m]) != 0)
  }

  lemma {:induction false} MatchesAppend(e: Option<Text>, v: Option<Text>, s: seq<Node>, t: seq<Node>)
    ensures Matches(e, v, s + t) == Matches(e, v, s) + Matches(e, v, t)
  {
    hide FindCmp;
    if s == [] {
      assert s + t == t;
    } else {
      assert (s + t)[0] == s[0] && (s + t)[1..] == s[1..] + t;
      MatchesAppend(e, v, s[1..], t);
    }
  }

  lemma {:induction false} RunIsShort(e: Option<Text>, v: Option<Text>, s: seq<Node>)
    ensures |Run(e, v, s)| <= |Matches(e, v, s)|
  {
    hide FindCmp;
    if s != [] { RunIsShort(e, v, s[1..]); }
  }

  lemma {:induction false} RunStops(e: Option<Text>, v: Option<Text>, s: seq<Node>, m: nat)
    requires m < |s| && FindCmp(e, v, s[m]) != 0
    ensures Run(e, v, s) == Run(e, v, s[..m])
  {
    hide FindCmp;
    if m > 0 {
      assert s[..m][1..] == s[1..][..m - 1];
      RunStops(e, v, s[1..], m - 1);
    }
  }

  lemma MatchIn(e: Option<Text>, v: Option<Text>, s: seq<Node>, j: nat)
    requires j < |s| && FindCmp(e, v, s[j]) == 0
    ensures |Matches(e, v, s)| > 0
  {
    InMatches(e, v, s, s[j]);
  }

  /** A missed node makes the answer too short. */
  lemma MissesShort(v: Text, s: seq<Node>, k: nat, j: nat)
    requires Misses(v, s, k, j) && k <= |s|
    ensures |Run(None, Some(v), s[k..])| < |Matches(None, Some(v), s)|
  {
    hide FindCmp, Run, Matches;
    MatchesAppend(None, Some(v), s[..k], s[k..]);
    assert s == s[..k] + s[k..];
    if k > j {
      assert s[..k][j] == s[j];
      MatchIn(None, Some(v), s[..k], j);
      RunIsShort(None, Some(v), s[k..]);
    } else {
      var m :| k <= m < j && FindCmp(None, Some(v), s[m]) != 0;
      assert s[k..][m - k] == s[m] && s[k..][j - k] == s[j];
      StopsShort(None, Some(v), s[k..], m - k, j - k);
    }
  }

  lemma StopsShort(e: Option<Text>, v: Option<Text>, t: seq<Node>, m: nat, j: nat)
    requires m < j < |t| && FindCmp(e, v, t[m]) != 0 && FindCmp(e, v, t[j]) == 0
    ensures |Run(e, v, t)| < |Matches(e, v, t)|
  {
    hide FindCmp, Run, Matches;
    RunStops(e, v, t, m);
    RunIsShort(e, v, t[..m]);
    MatchesAppend(e, v, t[..m], t[m..]);
    assert t == t[..m] + t[m..] && t[m..][j - m] == t[j];
    MatchIn(e, v, t[m..], j - m);
  }

  lemma {:induction false} BackUpStops(e: Option<Text>, v: Option<Text>, s: seq<Node>, k: nat, w: nat)
    requires w < k < |s| && FindCmp(e, v, s[k]) == 0 && FindCmp(e, v, s[w]) != 0
    ensures BackUp(e, v, s, k) > w
    decreases k
  {
    hide FindCmp;
    if k > 0 && FindCmp(e, v, s[k - 1]) == 0 { BackUpStops(e, v, s, k - 1, w); }
  }

  /** What halving finds lies behind a node in front that does not match, and not behind the range. */
  lemma {:induction false} SearchStays(e: Option<Text>, v: Option<Text>, s: seq<Node>, first: nat, last: nat, w: nat)
    requires w <= first <= last < |s| && FindCmp(e, v, s[w]) != 0
    ensures w < Search(e, v, s, first, last)
    decreases last - first
  {
    hide FindCmp;
    if last - first > 1 {
      var current := (first + last) / 2;
      var d := FindCmp(e, v, s[current]);
      if d == 0 {
        BackUpStops(e, v, s, current, w);
      } else if d < 0 {
        SearchStays(e, v, s, first, current, w);
      } else {
        SearchStays(e, v, s, current, last, w);
      }
    }
  }

  lemma {:induction false} SearchBelow(e: Option<Text>, v: Option<Text>, s: seq<Node>, first: nat, last: nat)
    requires first <= last < |s|
    ensures Search(e, v, s, first, last) <= last || Search(e, v, s, first, last) == |s|
    decreases last - first
  {
    hide FindCmp;
    if last - first > 1 {
      var current := (first + last) / 2;
      var d := FindCmp(e, v, s[current]);
      if d < 0 { SearchBelow(e, v, s, first, current); } else if d > 0 { SearchBelow(e, v, s, current, last); }
    }
  }

  /** The search for the smaller value turns away at or before the descent. */
  lemma MissesRight(s: seq<Node>, first: nat, last: nat, i: nat)
    requires first <= i && i + 1 <= last < |s| && last - first > 1 && StrCmp(s[i].attr, s[i + 1].attr) > 0
    requires (first + last) / 2 <= i && StrCmp(s[i + 1].attr, s[(first + last) / 2].attr) <= 0
    ensures var v := s[i + 1].attr; Misses(v, s, Search(None, Some(v), s, first, last), i + 1)
  {
    var v, current := s[i + 1].attr, (first + last) / 2;
    var k, d := Search(None, Some(v), s, first, last), FindCmp(None, Some(v), s[current]);
    StrCmpZero(v, v);
    StrCmpZero(s[i].attr, v);
    assert FindCmp(None, Some(v), s[i]) != 0;
    if d == 0 {
      assert k == BackUp(None, Some(v), s, current) <= i;
    } else {
      assert k == Search(None, Some(v), s, first, current);
      SearchBelow(None, Some(v), s, first, current);
    }
  }

  /** The search for the greater value turns away at or behind the descent. */
  lemma MissesLeft(s: seq<Node>, first: nat, last: nat, i: nat)
    requires first <= i && i + 1 <= last < |s| && last - first > 1 && StrCmp(s[i].attr, s[i + 1].attr) > 0
    requires (first + last) / 2 > i && StrCmp(s[i].attr, s[(first + last) / 2].attr) >= 0
    ensures var v := s[i].attr; Misses(v, s, Search(None, Some(v), s, first, last), i)
  {
    var v, current := s[i].attr, (first + last) / 2;
    var k, d := Search(None, Some(v), s, first, last), FindCmp(None, Some(v), s[current]);
    StrCmpZero(v, v);
    assert FindCmp(None, Some(v), s[i + 1]) != 0;
    if d == 0 {
      BackUpStops(None, Some(v), s, current, i + 1);
    } else {
      assert k == Search(None, Some(v), s, current, last);
      SearchStays(None, Some(v), s, current, last, current);
    }
  }

  /** Where two neighbours fall, the search for one of their values misses it. */
  lemma {:induction false} DescentMisses(s: seq<Node>, first: nat, last: nat, i: nat)
    requires first <= i && i + 1 <= last < |s| && last - first > 1 && StrCmp(s[i].attr, s[i + 1].attr) > 0
    ensures var a, b := s[i].attr, s[i + 1].attr;
      || Misses(a, s, Search(None, Some(a), s, first, last), i)
      || Misses(b, s, Search(None, Some(b), s, first, last), i + 1)
    decreases last - first
  {
    var a, b, current := s[i].attr, s[i + 1].attr, (first + last) / 2;
    var c := s[current].attr;
    hide Misses;
    if current <= i {
      if StrCmp(b, c) <= 0 {
        MissesRight(s, first, last, i);
      } else {
        StrictTrans(a, b, c);
        StrCmpZero(a, a);
        DescentMisses(s, current, last, i);
      }
    } else {
      if StrCmp(a, c) >= 0 {
        MissesLeft(s, first, last, i);
      } else {
        StrCmpZero(a, b);
        StrCmpZero(a, c);
        StrCmpZero(b, c);
        StrictTrans(c, a, b);
        DescentMisses(s, first, current, i);
      }
    }
  }

  /** Exactly when searches by attribute value alone are right: an index is sorted by name first, and with three
      nodes or more only one whose values happen not to decrease answers every search. */
  lemma ValueAloneExactly(s: seq<Node>)
    ensures FindsEveryValue(s) <==> |s| <= 2 || Rising(s)
  {
    hide FindCmp, Falling, Search, Matches, Run, Misses;
    if |s| <= 2 {
      forall v: Text ensures Found(None, Some(v), s) == Matches(None, Some(v), s) { TwoAreFound(None, Some(v), s); }
    } else if Rising(s) {
      forall v: Text ensures Found(None, Some(v), s) == Matches(None, Some(v), s) {
        RisingFalls(s, v);
        FallingFindsAll(None, Some(v), s);
      }
    } else {
      var i, j :| 0 <= i < j < |s| && StrCmp(s[i].attr, s[j].attr) > 0;
      var d := Descent(s, i, j);
      DescentMisses(s, 0, |s| - 1, d);
      var a, b := s[d].attr, s[d + 1].attr;
      var ka, kb := Search(None, Some(a), s, 0, |s| - 1), Search(None, Some(b), s, 0, |s| - 1);
      if Misses(a, s, ka, d) {
        MissesShort(a, s, ka, d);
        assert Found(None, Some(a), s) != Matches(None, Some(a), s);
      } else {
        MissesShort(b, s, kb, d + 1);
        assert Found(None, Some(b), s) != Matches(None, Some(b), s);
      }
    }
  }

  /** Four nodes named a, b, c and d, the first with another attribute value than the rest. */
  function FourNodes(): (s: seq<Node>) {
    [Node(0, [97], [50]), Node(1, [98], [49]), Node(2, [99], [49]), Node(3, [100], [49])]
  }

  lemma StrCmpDigit(a: nat, b: nat)
    ensures StrCmp([a], [b]) == if a < b then -1 else if a > b then 1 else 0
  {
    assert [a][1..] == [] && [b][1..] == [];
    assert StrCmp([], []) == 0;
  }

  /** A search by attribute value alone can miss a match: the index is sorted by name first. */
  lemma ValueAloneCanMiss()
    ensures Sorted(true, FourNodes()) && FourNodes()[0] in Matches(None, Some([50]), FourNodes())
    ensures Search(None, Some([50]), FourNodes(), 0, 3) == 4
  {
    var s := FourNodes();
    forall i, j | 0 <= i < j < |s| ensures Le(true, s[i], s[j]) {
      StrCmpDigit(s[i].name[0], s[j].name[0]);
    }
    StrCmpDigit(50, 49);
    StrCmpDigit(50, 50);
    assert FindCmp(None, Some([50]), s[0]) == 0;
    InMatches(None, Some([50]), s, s[0]);
    assert FindCmp(None, Some([50]), s[1]) == 1 == FindCmp(None, Some([50]), s[2]) == FindCmp(None, Some([50]), s[3]);
    hide StrCmp, FindCmp;
    assert Search(None, Some([50]), s, 2, 3) == 4;
    assert Search(None, Some([50]), s, 1, 3) == 4;
  }

  class Index {
    const byAttr: bool
    const nodes: array<Node>
    var cur: nat  // cur_node

    constructor (byAttr: bool, nodes: array<Node>)
      ensures this.byAttr == byAttr && this.nodes == nodes && cur == 0
    {
      this.byAttr, this.nodes, cur := byAttr, nodes, 0;
    }

    /** The two scans: past everything at most the pivot from the left, past everything above it from the
        right. */
    method Scan(pivot: Node, left: nat, right: nat, l0: nat, r0: nat) returns (l: nat, r: nat)
      requires left < right && l0 < r0 && Splitting(byAttr, nodes[..], pivot, left, right, l0, r0) && Le(byAttr, nodes[l0], pivot)
      ensures Splitting(byAttr, nodes[..], pivot, left, right, l, r) && l > l0 && r <= r0
      ensures Le(byAttr, nodes[r], pivot)
    {
      hide Compare;
      l, r := l0, r0;
      while l < right && Compare(byAttr, nodes[l], pivot) <= 0
        invariant l0 <= l && Splitting(byAttr, nodes[..], pivot, left, right, l, r)
      {
        l := l + 1;
      }
      while r > left && Compare(byAttr, nodes[r], pivot) > 0
        invariant r <= r0 && Splitting(byAttr, nodes[..], pivot, left, right, l, r)
      {
        r := r - 1;
      }
      if r == left { LeTotal(byAttr, pivot, pivot); }
    }

    /** The splitting loop of index_sort and the move of the pivot: everything before the answer is at most
        the node there, everything behind it at least. */
    method Partition(left: nat, right: nat) returns (p: nat)
      requires left < right < nodes.Length
      modifies nodes
      ensures left <= p <= right && Permuted(old(nodes[..]), nodes[..], left, right + 1)
      ensures AllLe(byAttr, nodes[left..p], [nodes[p]]) && AllLe(byAttr, [nodes[p]], nodes[p + 1..right + 1])
    {
      var pivot := nodes[left];
      var l: nat, r: nat := left, right;
      ghost var orig, s := nodes[..], nodes[..];
      LeTotal(byAttr, pivot, pivot);
      PermutedSelf(s, left, right + 1);
      hide Permuted, AllLe, Compare, Le;
      while l < r
        invariant nodes[..] == s && Splitting(byAttr, s, pivot, left, right, l, r)
        invariant Permuted(orig, s, left, right + 1)
        invariant Le(byAttr, s[if l < r then l else r], pivot)
        decreases r - l
      {
        l, r := Scan(pivot, left, right, l, r);
        if l < r {
          SplitSwap(byAttr, s, pivot, left, right, l, r);
          s := SwapIn(l, r, left, right + 1, orig, s);
        }
      }
      PlacePivot(pivot, left, right, l, r, orig, s);
      p := r;
    }

    /** The move of the pivot to where the two scans met. */
    method PlacePivot(pivot: Node, left: nat, ghost right: nat, ghost l: nat, r: nat, ghost orig: seq<Node>, ghost s: seq<Node>)
      requires left < right < nodes.Length && nodes[..] == s && Splitting(byAttr, s, pivot, left, right, l, r)
      requires r <= l && Le(byAttr, s[r], pivot) && Permuted(orig, s, left, right + 1)
      modifies nodes
      ensures Permuted(orig, nodes[..], left, right + 1)
      ensures AllLe(byAttr, nodes[left..r], [nodes[r]]) && AllLe(byAttr, [nodes[r]], nodes[r + 1..right + 1])
    {
      hide Permuted, AllLe, Compare, Le;
      ghost var t := s;
      if Compare(byAttr, pivot, nodes[r]) > 0 {
        t := SwapIn(left, r, left, right + 1, orig, s);
      }
      SplitDone(byAttr, s, pivot, left, right, l, r, t);
      assert t[left..r] == nodes[left..r] && t[r + 1..right + 1] == nodes[r + 1..right + 1];
    }

    /** Swap two nodes of lo..hi; the whole stays a permutation of the original. */
    method SwapIn(i: nat, j: nat, ghost lo: nat, ghost hi: nat, ghost orig: seq<Node>, ghost s: seq<Node>) returns (ghost t: seq<Node>)
      requires lo <= i <= j < hi <= nodes.Length && nodes[..] == s && Permuted(orig, s, lo, hi)
      modifies nodes
      ensures nodes[..] == t == s[i := s[j]][j := s[i]] && Permuted(orig, t, lo, hi)
    {
      t := s[i := s[j]][j := s[i]];
      SwapPermuted(s, i, j, lo, hi);
      PermutedTrans(orig, s, t, lo, hi);
      nodes[i], nodes[j] := nodes[j], nodes[i];
      assert nodes[..] == t;
    }

    /** index_sort: the left part recursively, the right part by going round the loop. */
    method Sort(left0: nat, right: nat)
      requires left0 < right < nodes.Length
      modifies nodes
      ensures Permuted(old(nodes[..]), nodes[..], left0, right + 1)
      ensures Sorted(byAttr, nodes[left0..right + 1])
      decreases right - left0
    {
      var left := left0;
      PermutedSelf(nodes[..], left0, right + 1);
      assert nodes[left0..left] == [];
      var more := true;
      while more
        invariant left0 <= left <= right + 1 && (more <==> left < right)
        invariant Permuted(old(nodes[..]), nodes[..], left0, right + 1)
        invariant Sorted(byAttr, nodes[left0..left]) && AllLe(byAttr, nodes[left0..left], nodes[left..right + 1])
        decreases right + 1 - left
      {
        left := SortStep(left0, left, right, old(nodes[..]));
        more := right > left;
      }
      Cut(nodes[..], left0, left, right + 1);
      SortedAppend(byAttr, nodes[left0..left], nodes[left..right + 1]);
      assert nodes[..][left0..left] == nodes[left0..left] && nodes[..][left..right + 1] == nodes[left..right + 1];
      assert nodes[..][left0..right + 1] == nodes[left0..right + 1];
    }

    /** One turn of the loop: partition what is left and sort its left part. */
    method SortStep(left0: nat, left: nat, right: nat, ghost before: seq<Node>) returns (left': nat)
      requires left0 <= left < right < nodes.Length
      requires Permuted(before, nodes[..], left0, right + 1)
      requires Sorted(byAttr, nodes[left0..left]) && AllLe(byAttr, nodes[left0..left], nodes[left..right + 1])
      modifies nodes
      ensures left < left' <= right + 1
      ensures Permuted(before, nodes[..], left0, right + 1)
      ensures Sorted(byAttr, nodes[left0..left']) && AllLe(byAttr, nodes[left0..left'], nodes[left'..right + 1])
      decreases right - left, 0
    {
      ghost var s := nodes[..];
      hide Permuted, AllLe, Sorted;
      var p := Partition(left, right);
      ghost var t := nodes[..];
      assert t[left..p] == nodes[left..p] && t[p + 1..right + 1] == nodes[p + 1..right + 1];
      if left + 1 < p {
        Sort(left, p - 1);
      } else {
        PermutedSelf(t, left, p);
        ShortIsSorted(byAttr, nodes[left..p]);
      }
      ghost var u := nodes[..];
      assert u[left..p] == nodes[left..p];
      SortedStep(byAttr, before, s, t, u, left0, left, p, right);
      left' := p + 1;
      assert u[left0..left'] == nodes[left0..left'] && u[left'..right + 1] == nodes[left'..right + 1];
    }

    /** mxmlIndexNew's last step: the whole array is sorted. */
    method SortAll()
      modifies nodes
      ensures Sorted(byAttr, nodes[..]) && multiset(nodes[..]) == multiset(old(nodes[..]))
    {
      if nodes.Length > 1 {
        Sort(0, nodes.Length - 1);
        assert nodes[0..nodes.Length] == nodes[..] && nodes[..][0..nodes.Length] == nodes[..];
        assert old(nodes[..])[0..nodes.Length] == old(nodes[..]);
      }
    }

    /** mxmlIndexReset. */
    method Reset() returns (r: Option<Node>)
      modifies this
      ensures cur == 0 && r == if nodes.Length > 0 then Some(nodes[0]) else None
      ensures forall e, v :: Left(e, v, nodes[..], cur) == Found(e, v, nodes[..])
    {
      cur := 0;
      r := if nodes.Length > 0 then Some(nodes[0]) else None;
    }

    /** mxmlIndexEnum. */
    method Enum() returns (r: Option<Node>)
      requires cur <= nodes.Length
      modifies this
      ensures if old(cur) < nodes.Length then cur == old(cur) + 1 && r == Some(nodes[old(cur)])
              else cur == old(cur) && r == None
    {
      if cur < nodes.Length {
        r := Some(nodes[cur]);
        cur := cur + 1;
      } else {
        r := None;
      }
    }

    /** The modified binary search of mxmlIndexFind. */
    method FindFirst(e: Option<Text>, v: Option<Text>) returns (k: nat)
      requires nodes.Length > 0
      ensures k == Search(e, v, nodes[..], 0, nodes.Length - 1)
    {
      hide FindCmp;
      var first: nat, last: nat := 0, nodes.Length - 1;
      while last - first > 1
        invariant first <= last < nodes.Length
        invariant Search(e, v, nodes[..], first, last) == Search(e, v, nodes[..], 0, nodes.Length - 1)
        decreases last - first
      {
        var current: nat := (first + last) / 2;
        var diff := FindCmp(e, v, nodes[current]);
        if diff == 0 {
          ghost var found := current;
          while current > 0 && FindCmp(e, v, nodes[current - 1]) == 0
            invariant current < nodes.Length && FindCmp(e, v, nodes[current]) == 0
            invariant BackUp(e, v, nodes[..], current) == BackUp(e, v, nodes[..], found)
          {
            current := current - 1;
          }
          return current;
        } else if diff < 0 {
          last := current;
        } else {
          first := current;
        }
      }
      for current := first to last + 1
        invariant current > first ==> FindCmp(e, v, nodes[first]) != 0
        invariant current > last ==> FindCmp(e, v, nodes[last]) != 0
      {
        if FindCmp(e, v, nodes[current]) == 0 {
          return current;
        }
      }
      return nodes.Length;
    }

    /** mxmlIndexFind. Every node returned fits and lies behind the ones returned before; it is the first of the
        nodes still to be returned. */
    method Find(e: Option<Text>, v: Option<Text>) returns (r: Option<Node>)
      requires cur <= nodes.Length
      modifies this
      ensures if byAttr || v.None? then Answers(e, v, nodes[..], old(cur), r, cur) else r == None && cur == old(cur)
    {
      r := None;
      if !byAttr && v.Some? {
        return;
      }
      hide *;
      if e.None? && v.None? {
        r := EnumFind();
      } else if nodes.Length == 0 {
        NothingThere(e, v, nodes[..], cur);
      } else if cur == 0 {
        r := FindFromStart(e, v);
      } else {
        r := FindNext(e, v);
      }
    }

    /** mxmlIndexFind for neither name nor value. */
    method EnumFind() returns (r: Option<Node>)
      requires cur <= nodes.Length
      modifies this
      ensures Answers(None, None, nodes[..], old(cur), r, cur)
    {
      ghost var s := nodes[..];
      hide FindCmp, Left;
      LeftEnum(s, cur);
      r := Enum();
      LeftEnum(s, cur);
    }

    /** mxmlIndexFind after a reset. */
    method FindFromStart(e: Option<Text>, v: Option<Text>) returns (r: Option<Node>)
      requires cur == 0 < nodes.Length
      modifies this
      ensures Answers(e, v, nodes[..], old(cur), r, cur)
    {
      ghost var s := nodes[..];
      var current := FindFirst(e, v);
      SearchTakes(e, v, s, current);
      hide FindCmp, Left, Takes, Search, Fits;
      cur, r := nodes.Length, None;
      if current < nodes.Length {
        cur, r := current + 1, Some(nodes[current]);
      }
    }

    /** mxmlIndexFind after a match. */
    method FindNext(e: Option<Text>, v: Option<Text>) returns (r: Option<Node>)
      requires 0 < cur <= nodes.Length
      modifies this
      ensures Answers(e, v, nodes[..], old(cur), r, cur)
    {
      ghost var s := nodes[..];
      NextTakes(e, v, s, cur);
      hide Left, Takes, Search;
      r := None;
      if cur < nodes.Length && FindCmp(e, v, nodes[cur]) == 0 {
        cur, r := cur + 1, Some(nodes[cur]);
      } else {
        cur := nodes.Length;
      }
    }

    /** A reset and then a search until NULL comes back. The answer is what a linear filter over the index selects
        for searches of a sorted index by name, or by name and value, and for searches by value alone where they
        can be right. */
    method FindAll(e: Option<Text>, v: Option<Text>) returns (out: seq<Node>)
      modifies this
      ensures !byAttr && v.Some? ==> out == []
      ensures byAttr || v.None? ==> out == Found(e, v, nodes[..])
      ensures (byAttr || v.None?) && (e.Some? || v.None?) && Sorted(byAttr, nodes[..]) ==> out == Matches(e, v, nodes[..])
      ensures byAttr && e.None? && v.Some? && (nodes.Length <= 2 || Rising(nodes[..])) ==> out == Matches(e, v, nodes[..])
    {
      ghost var s := nodes[..];
      out := [];
      if byAttr || v.None? {
        out := Collect(e, v);
        if (e.Some? || v.None?) && Sorted(byAttr, s) {
          SortedFalls(byAttr, s, e, v);
          FallingFindsAll(e, v, s);
        }
        ValueAloneExactly(s);
      } else {
        var _ := Reset();
        var _ := Find(e, v);
      }
    }

    /** The loop over the searches. */
    method Collect(e: Option<Text>, v: Option<Text>) returns (out: seq<Node>)
      requires byAttr || v.None?
      modifies this
      ensures out == Found(e, v, nodes[..])
    {
      ghost var s := nodes[..];
      var _ := Reset();
      out := [];
      ghost var rest := Found(e, v, s);
      assert Left(e, v, s, cur) == rest;
      hide Found, Left, Fits;
      var r := Find(e, v);
      while r.Some?
        invariant cur <= nodes.Length && nodes[..] == s
        invariant Takes(rest, r, Left(e, v, s, cur))
        invariant Found(e, v, s) == out + rest
        decreases |rest|
      {
        MoveOver(out, rest);
        out := out + [r.value];
        rest := rest[1..];
        r := Find(e, v);
      }
    }
  }

  lemma NothingThere(e: Option<Text>, v: Option<Text>, s: seq<Node>, cur: nat)
    requires s == [] && cur == 0
    ensures Answers(e, v, s, cur, None, cur)
  {
  }

  lemma MoveOver(out: seq<Node>, rest: seq<Node>)
    requires rest != []
    ensures out + rest == out + [rest[0]] + rest[1..]
  {
  }

  /** With neither name nor value given, everything is still to come. */
  lemma LeftEnum(s: seq<Node>, cur: nat)
    requires cur <= |s|
    ensures Left(None, None, s, cur) == s[cur..]
  {
    EnumRest(s);
    EnumRest(s[cur..]);
    FallingFindsAll(None, None, s);
  }

  lemma {:induction false} EnumRest(s: seq<Node>)
    ensures Matches(None, None, s) == s == Run(None, None, s)
  {
    if s != [] { EnumRest(s[1..]); }
  }

  /** A call after the first one. */
  lemma NextTakes(e: Option<Text>, v: Option<Text>, s: seq<Node>, cur: nat)
    requires 0 < cur <= |s|
    ensures if cur < |s| && FindCmp(e, v, s[cur]) == 0
            then Takes(Left(e, v, s, cur), Some(s[cur]), Left(e, v, s, cur + 1))
            else Takes(Left(e, v, s, cur), None, Left(e, v, s, |s|))
  {
    hide FindCmp;
    if cur < |s| { assert s[cur..][1..] == s[cur + 1..]; }
  }

  /** The first call. */
  lemma SearchTakes(e: Option<Text>, v: Option<Text>, s: seq<Node>, k: nat)
    requires s != [] && k == Search(e, v, s, 0, |s| - 1)
    ensures k <= |s| && (k < |s| ==> FindCmp(e, v, s[k]) == 0)
    ensures if k < |s| then Takes(Left(e, v, s, 0), Some(s[k]), Left(e, v, s, k + 1)) else Takes(Left(e, v, s, 0), None, Left(e, v, s, |s|))
  {
    hide FindCmp;
    if k < |s| { RunStep(e, v, s, k); } else { assert s[k..] == []; }
  }

  lemma FallingSuffix(e: Option<Text>, v: Option<Text>, s: seq<Node>, k: nat)
    requires Falling(e, v, s) && k <= |s|
    ensures Falling(e, v, s[k..])
  {
    hide FindCmp;
  }

  lemma RunStep(e: Option<Text>, v: Option<Text>, s: seq<Node>, k: nat)
    requires k < |s| && FindCmp(e, v, s[k]) == 0
    ensures Run(e, v, s[k..]) == [s[k]] + Run(e, v, s[k + 1..])
  {
    hide FindCmp;
    assert s[k..][1..] == s[k + 1..];
  }

  lemma ShortIsSorted(byAttr: bool, s: seq<Node>)
    requires |s| <= 1
    ensures Sorted(byAttr, s)
  {
  }

  /** Partitioned at p, with the left part sorted: the sorted prefix grows past p. */
  lemma SortedStep(byAttr: bool, before: seq<Node>, s: seq<Node>, t: seq<Node>, u: seq<Node>, left0: nat, left: nat, p: nat, right: nat)
    requires left0 <= left <= p <= right < |s| && Permuted(before, s, left0, right + 1)
    requires Sorted(byAttr, s[left0..left]) && AllLe(byAttr, s[left0..left], s[left..right + 1])
    requires Permuted(s, t, left, right + 1)
    requires AllLe(byAttr, t[left..p], [t[p]]) && AllLe(byAttr, [t[p]], t[p + 1..right + 1])
    requires Permuted(t, u, left, p) && Sorted(byAttr, u[left..p])
    ensures |u| == |s| && Permuted(before, u, left0, right + 1)
    ensures Sorted(byAttr, u[left0..p + 1]) && AllLe(byAttr, u[left0..p + 1], u[p + 1..right + 1])
  {
    hide Permuted, Sorted, AllLe;
    StepPermutes(before, s, t, u, left0, left, p, right);
    StepParts(s, t, u, left0, left, p, right);
    AllLePermuted(byAttr, s[left0..left], s[left..right + 1], u[left0..left], u[left..p] + ([u[p]] + u[p + 1..right + 1]));
    AllLePermuted(byAttr, t[left..p], [t[p]], u[left..p], [u[p]]);
    Joined(byAttr, u[left0..left], u[left..p], u[p], u[p + 1..right + 1]);
    assert u[left0..p + 1] == u[left0..left] + (u[left..p] + [u[p]]);
  }

  /** One turn of the loop only moves nodes about between left0 and right. */
  lemma StepPermutes(before: seq<Node>, s: seq<Node>, t: seq<Node>, u: seq<Node>, left0: nat, left: nat, p: nat, right: nat)
    requires left0 <= left <= p <= right < |s| && Permuted(before, s, left0, right + 1)
    requires Permuted(s, t, left, right + 1) && Permuted(t, u, left, p)
    ensures |u| == |s| == |t| && Permuted(before, u, left0, right + 1)
  {
    assert |s| == |t| == |u|;
    hide Permuted;
    PermutedWiden(s, t, left, right + 1, left0, right + 1);
    PermutedTrans(before, s, t, left0, right + 1);
    PermutedWiden(t, u, left, p, left0, right + 1);
    PermutedTrans(before, t, u, left0, right + 1);
  }

  /** What one turn of the loop does to each part of the array. */
  lemma StepParts(s: seq<Node>, t: seq<Node>, u: seq<Node>, left0: nat, left: nat, p: nat, right: nat)
    requires left0 <= left <= p <= right < |s|
    requires Permuted(s, t, left, right + 1) && Permuted(t, u, left, p)
    ensures |u| == |s| == |t| && u[left0..left] == s[left0..left]
    ensures multiset(u[left..p] + ([u[p]] + u[p + 1..right + 1])) == multiset(s[left..right + 1])
    ensures multiset(u[left..p]) == multiset(t[left..p]) && u[p] == t[p] && u[p + 1..right + 1] == t[p + 1..right + 1]
  {
    assert |s| == |t| == |u| && multiset(u[left..p]) == multiset(t[left..p]);
    PermutedWiden(t, u, left, p, left, right + 1);
    PermutedTrans(s, t, u, left, right + 1);
    assert multiset(u[left..right + 1]) == multiset(s[left..right + 1]);
    hide Permuted;
    PermutedWiden(s, u, left, right + 1, left0, right + 1);
    assert u[p] == u[p..right + 1][0] && t[p] == t[p..right + 1][0];
    assert u[p + 1..right + 1] == u[p..right + 1][1..] && t[p + 1..right + 1] == t[p..right + 1][1..];
    assert u[left..right + 1] == u[left..p] + ([u[p]] + u[p + 1..right + 1]);
  }

  /** The pieces of one turn of the loop, put together. */
  lemma Joined(byAttr: bool, front: seq<Node>, mid: seq<Node>, pivot: Node, back: seq<Node>)
    requires Sorted(byAttr, front) && Sorted(byAttr, mid)
    requires AllLe(byAttr, front, mid + ([pivot] + back))
    requires AllLe(byAttr, mid, [pivot]) && AllLe(byAttr, [pivot], back)
    ensures Sorted(byAttr, front + (mid + [pivot])) && AllLe(byAttr, front + (mid + [pivot]), back)
  {
    hide Le;
    SortedAppend(byAttr, mid, [pivot]);
    assert AllLe(byAttr, front, mid + [pivot]);
    SortedAppend(byAttr, front, mid + [pivot]);
    forall x, y | x in front + (mid + [pivot]) && y in back ensures Le(byAttr, x, y) {
      if x in mid { LeTrans(byAttr, x, pivot, y); }
    }
  }

  lemma PermutedSelf(s: seq<Node>, lo: nat, hi: nat)
    requires lo <= hi <= |s|
    ensures Permuted(s, s, lo, hi)
  {
  }
}
