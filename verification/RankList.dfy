/** The top-100 leaderboard of world/rankreward.c. */
module RankList {

  type Pid = nat

  datatype Entry = Entry(pid: Pid, value: int)

  const RANK_COUNT := 100

  // ---------- rank_insert on the list of entries ----------

  /** The first place of a player, or the length of the list. */
  function IndexOf(l: seq<Entry>, pid: Pid): (i: nat)
    ensures i <= |l| && (i < |l| ==> l[i].pid == pid)
    ensures forall j :: 0 <= j < i ==> l[j].pid != pid
  {
    if l == [] || l[0].pid == pid then 0
    else
      var i := IndexOf(l[1..], pid);
      assert forall j :: 1 <= j < i + 1 ==> l[j] == l[1..][j - 1];
      1 + i
  }

  /** Bring the entry at i forward past every smaller one. */
  function Forward(l: seq<Entry>, i: nat): (r: seq<Entry>)
    requires i < |l|
    ensures |r| == |l|
    decreases i
  {
    if i == 0 then l
    else if l[i - 1].value < l[i].value then Forward(l[i := l[i - 1]][i - 1 := l[i]], i - 1)
    else Forward(l, i - 1)
  }

  function Insert(l: seq<Entry>, pid: Pid, value: int): seq<Entry>
    requires |l| <= RANK_COUNT
  {
    var i := IndexOf(l, pid);
    if |l| == RANK_COUNT && value <= l[RANK_COUNT - 1].value then l
    else if i < |l| then Forward(l[i := Entry(pid, value)], i)
    else if |l| < RANK_COUNT then Forward(l + [Entry(pid, value)], |l|)
    else Forward(l[RANK_COUNT - 1 := Entry(pid, value)], RANK_COUNT - 1)
  }

  // ---------- what the board shows ----------

  ghost predicate Descending(l: seq<Entry>) {
    forall j, k :: 0 <= j < k < |l| ==> l[j].value >= l[k].value
  }

  ghost predicate Distinct(l: seq<Entry>) {
    forall j, k :: 0 <= j < k < |l| ==> l[j].pid != l[k].pid
  }

  ghost predicate Listed(l: seq<Entry>, pid: Pid) {
    exists j :: 0 <= j < |l| && l[j].pid == pid
  }

  /** The list shows players with their latest values, best first, each once; a player is missing
      only if the list is full and the last entry is at least as good. */
  ghost predicate Board(l: seq<Entry>, latest: map<Pid, int>) {
    && |l| <= RANK_COUNT && Descending(l) && Distinct(l)
    && (forall j :: 0 <= j < |l| ==> l[j].pid in latest && latest[l[j].pid] == l[j].value)
    && (forall p :: p in latest ==> Listed(l, p) || (|l| == RANK_COUNT && latest[p] <= l[RANK_COUNT - 1].value))
  }

  /** Descending but for the entry at i, which may be too far back. */
  ghost predicate Misplaced(l: seq<Entry>, i: nat) {
    && i < |l|
    && (forall j, k :: 0 <= j < k < |l| && j != i && k != i ==> l[j].value >= l[k].value)
    && (forall k :: i < k < |l| ==> l[i].value >= l[k].value)
  }

  lemma {:induction false} ForwardSorted(l: seq<Entry>, i: nat)
    requires i < |l| && Descending(l)
    ensures Forward(l, i) == l
    decreases i
  {
    if i > 0 { ForwardSorted(l, i - 1); }
  }

  lemma SwapPermutes(l: seq<Entry>, i: nat)
    requires 0 < i < |l|
    ensures multiset(l[i := l[i - 1]][i - 1 := l[i]]) == multiset(l)
  {
  }

  lemma SwapKeeps(l: seq<Entry>, i: nat)
    requires Misplaced(l, i) && i > 0 && l[i - 1].value < l[i].value
    ensures var s := l[i := l[i - 1]][i - 1 := l[i]];
            Misplaced(s, i - 1) && (Distinct(l) ==> Distinct(s))
  {
  }

  /** Moving the misplaced entry forward sorts the list and only permutes it. */
  lemma {:induction false} ForwardSorts(l: seq<Entry>, i: nat)
    requires Misplaced(l, i)
    ensures Descending(Forward(l, i)) && multiset(Forward(l, i)) == multiset(l)
    ensures Distinct(l) ==> Distinct(Forward(l, i))
    decreases i
  {
    if i > 0 && l[i - 1].value < l[i].value {
      var s := l[i := l[i - 1]][i - 1 := l[i]];
      hide Distinct, Descending, Misplaced;
      SwapPermutes(l, i);
      SwapKeeps(l, i);
      ForwardSorts(s, i - 1);
    } else {
      ForwardSorted(l, i);
    }
  }

  /** Entries that agree with the latest values, in a sorted list that is as good as any missing player,
      make a board; the order of the entries before sorting does not matter. */
  lemma BoardFrom(l: seq<Entry>, r: seq<Entry>, latest: map<Pid, int>, floor: int)
    requires |r| <= RANK_COUNT && Descending(r) && Distinct(r) && |r| == |l| && multiset(r) == multiset(l)
    requires forall j :: 0 <= j < |l| ==> l[j].pid in latest && latest[l[j].pid] == l[j].value && l[j].value >= floor
    requires forall p :: p in latest ==> Listed(l, p) || (|l| == RANK_COUNT && latest[p] <= floor)
    ensures Board(r, latest)
  {
    forall j | 0 <= j < |r| ensures r[j].pid in latest && latest[r[j].pid] == r[j].value && r[j].value >= floor {
      assert r[j] in multiset(l);
      var k :| 0 <= k < |l| && l[k] == r[j];
    }
    forall p | p in latest && Listed(l, p) ensures Listed(r, p) {
      var j :| 0 <= j < |l| && l[j].pid == p;
      assert l[j] in multiset(r);
      var k :| 0 <= k < |r| && r[k] == l[j];
    }
  }

  /** What the source asserts: a player on the list does not fall. */
  ghost predicate Allowed(l: seq<Entry>, pid: Pid, value: int) {
    forall j :: 0 <= j < |l| && l[j].pid == pid ==> value >= l[j].value
  }

  /** A player on a full list who falls to the last value or below gets past the assertion, and the
      list goes on showing the old value. */
  lemma IgnoredFall(l: seq<Entry>, latest: map<Pid, int>, pid: Pid, value: int)
    requires Board(l, latest) && |l| == RANK_COUNT && value <= l[RANK_COUNT - 1].value && !Allowed(l, pid, value)
    ensures Insert(l, pid, value) == l && !Board(l, latest[pid := value])
  {
  }

  /** rank_insert keeps the board, although it forgets the players it drops. */
  lemma InsertKeeps(l: seq<Entry>, latest: map<Pid, int>, pid: Pid, value: int)
    requires Board(l, latest) && Allowed(l, pid, value)
    ensures Board(Insert(l, pid, value), latest[pid := value])
  {
    var i, now := IndexOf(l, pid), latest[pid := value];
    if |l| == RANK_COUNT && value <= l[RANK_COUNT - 1].value {
      if i < |l| { assert l[i].value >= l[RANK_COUNT - 1].value; assert now == latest; }
    } else if i < |l| {
      InsertFound(l, latest, pid, value, i);
    } else if |l| < RANK_COUNT {
      InsertAppend(l, latest, pid, value);
    } else {
      InsertReplace(l, latest, pid, value);
    }
  }

  lemma InsertFound(l: seq<Entry>, latest: map<Pid, int>, pid: Pid, value: int, i: nat)
    requires Board(l, latest) && i < |l| && l[i].pid == pid && value >= l[i].value
    ensures Board(Forward(l[i := Entry(pid, value)], i), latest[pid := value])
  {
    var s, now := l[i := Entry(pid, value)], latest[pid := value];
    ForwardSorts(s, i);
    forall p | p in now ensures Listed(s, p) || (|s| == RANK_COUNT && now[p] <= l[|l| - 1].value) {
      if p == pid {
        assert s[i].pid == p;
      } else if Listed(l, p) {
        var j :| 0 <= j < |l| && l[j].pid == p;
        assert s[j].pid == p;
      }
    }
    BoardFrom(s, Forward(s, i), now, l[|l| - 1].value);
  }

  lemma InsertAppend(l: seq<Entry>, latest: map<Pid, int>, pid: Pid, value: int)
    requires Board(l, latest) && |l| < RANK_COUNT && !Listed(l, pid)
    ensures Board(Forward(l + [Entry(pid, value)], |l|), latest[pid := value])
  {
    var s, now := l + [Entry(pid, value)], latest[pid := value];
    var floor := if l == [] || value < l[|l| - 1].value then value else l[|l| - 1].value;
    assert Misplaced(s, |l|) && Distinct(s);
    assert forall j :: 0 <= j < |s| ==> s[j].value >= floor;
    ForwardSorts(s, |l|);
    hide Descending, Distinct, Misplaced, Forward;
    forall p | p in now ensures Listed(s, p) {
      if p == pid {
        assert s[|l|].pid == p;
      } else {
        var j :| 0 <= j < |l| && l[j].pid == p;
        assert s[j].pid == p;
      }
    }
    BoardFrom(s, Forward(s, |l|), now, floor);
  }

  lemma InsertReplace(l: seq<Entry>, latest: map<Pid, int>, pid: Pid, value: int)
    requires Board(l, latest) && |l| == RANK_COUNT && !Listed(l, pid) && value > l[RANK_COUNT - 1].value
    ensures Board(Forward(l[RANK_COUNT - 1 := Entry(pid, value)], RANK_COUNT - 1), latest[pid := value])
  {
    var last := RANK_COUNT - 1;
    var s, now := l[last := Entry(pid, value)], latest[pid := value];
    ForwardSorts(s, last);
    forall p | p in now ensures Listed(s, p) || now[p] <= l[last].value {
      if p == pid {
        assert s[last].pid == p;
      } else if Listed(l, p) {
        var j :| 0 <= j < |l| && l[j].pid == p;
        if j < last { assert s[j].pid == p; }
      }
    }
    BoardFrom(s, Forward(s, last), now, l[last].value);
  }

  // ---------- whole runs ----------

  /** The latest value of every player, the dropped ones included. */
  function Latest(history: seq<Entry>): map<Pid, int> {
    if history == [] then map[]
    else
      var e := history[|history| - 1];
      Latest(history[..|history| - 1])[e.pid := e.value]
  }

  /** The list after a run of rank_insert calls. */
  function Run(history: seq<Entry>): (l: seq<Entry>)
    ensures |l| <= RANK_COUNT
  {
    if history == [] then []
    else
      var e := history[|history| - 1];
      Insert(Run(history[..|history| - 1]), e.pid, e.value)
  }

  /** No call of the run lets a player fall who is on the list at that moment. */
  ghost predicate Legal(history: seq<Entry>) {
    history == [] ||
    (var front, e := history[..|history| - 1], history[|history| - 1];
     Legal(front) && Allowed(Run(front), e.pid, e.value))
  }

  /** No player's value ever falls. */
  ghost predicate Monotone(history: seq<Entry>) {
    forall i, j :: 0 <= i < j < |history| && history[i].pid == history[j].pid ==> history[i].value <= history[j].value
  }

  lemma {:induction false} LatestIsSome(history: seq<Entry>, pid: Pid)
    requires pid in Latest(history)
    ensures exists i :: 0 <= i < |history| && history[i] == Entry(pid, Latest(history)[pid])
  {
    var front, e := history[..|history| - 1], history[|history| - 1];
    if e.pid != pid {
      LatestIsSome(front, pid);
      var i :| 0 <= i < |front| && front[i] == Entry(pid, Latest(front)[pid]);
      assert history[i] == front[i];
    }
  }

  lemma {:induction false} MonotoneIsLegal(history: seq<Entry>)
    requires Monotone(history)
    ensures Legal(history)
  {
    if history != [] {
      var front, e := history[..|history| - 1], history[|history| - 1];
      MonotoneIsLegal(front);
      RunIsBoard(front);
      var l := Run(front);
      forall j | 0 <= j < |l| && l[j].pid == e.pid ensures e.value >= l[j].value {
        LatestIsSome(front, e.pid);
        var i :| 0 <= i < |front| && front[i] == Entry(e.pid, Latest(front)[e.pid]);
        assert history[i].pid == history[|front|].pid;
      }
    }
  }

  lemma {:induction false} RunIsBoard(history: seq<Entry>)
    requires Legal(history)
    ensures Board(Run(history), Latest(history))
  {
    if history != [] {
      var front, e := history[..|history| - 1], history[|history| - 1];
      RunIsBoard(front);
      InsertKeeps(Run(front), Latest(front), e.pid, e.value);
    }
  }

  /** The players whose latest value is at least t. */
  ghost function AtLeast(latest: map<Pid, int>, t: int): set<Pid> {
    set p | p in latest && latest[p] >= t
  }

  ghost function Pids(l: seq<Entry>, k: nat): set<Pid>
    requires k <= |l|
  {
    if k == 0 then {} else Pids(l, k - 1) + {l[k - 1].pid}
  }

  lemma {:induction false} PidIndex(l: seq<Entry>, k: nat, p: Pid) returns (j: nat)
    requires k <= |l| && p in Pids(l, k)
    ensures j < k && l[j].pid == p
  {
    if l[k - 1].pid == p { j := k - 1; } else { j := PidIndex(l, k - 1, p); }
  }

  lemma {:induction false} PidIn(l: seq<Entry>, k: nat, j: nat)
    requires j < k <= |l|
    ensures l[j].pid in Pids(l, k)
  {
    if j < k - 1 { PidIn(l, k - 1, j); }
  }

  lemma {:induction false} PidsCount(l: seq<Entry>, k: nat)
    requires Distinct(l) && k <= |l|
    ensures |Pids(l, k)| == k
  {
    if k > 0 {
      PidsCount(l, k - 1);
      if l[k - 1].pid in Pids(l, k - 1) {
        var j := PidIndex(l, k - 1, l[k - 1].pid);
        assert false;
      }
    }
  }

  lemma {:induction false} Subset(a: set<Pid>, b: set<Pid>)
    requires a <= b
    ensures |a| <= |b|
  {
    if a != {} {
      var x :| x in a;
      Subset(a - {x}, b - {x});
    }
  }

  /** The first k + 1 places all reach t. */
  lemma TopEnough(l: seq<Entry>, latest: map<Pid, int>, k: nat, t: int)
    requires Board(l, latest) && k < |l| && l[k].value >= t
    ensures |AtLeast(latest, t)| > k
  {
    PidsCount(l, k + 1);
    forall p | p in Pids(l, k + 1) ensures p in AtLeast(latest, t) {
      var j := PidIndex(l, k + 1, p);
      assert l[j].value >= l[k].value;
    }
    Subset(Pids(l, k + 1), AtLeast(latest, t));
  }

  /** Whoever reaches t stands before place k. */
  lemma TopNoMore(l: seq<Entry>, latest: map<Pid, int>, k: nat, t: int, m: nat)
    requires Board(l, latest) && k < RANK_COUNT && !(k < |l| && l[k].value >= t)
    requires m == if k < |l| then k else |l|
    ensures |AtLeast(latest, t)| <= m
  {
    forall p | p in AtLeast(latest, t) ensures p in Pids(l, m) {
      assert Listed(l, p);
      var j :| 0 <= j < |l| && l[j].pid == p;
      assert j < m;
      PidIn(l, m, j);
    }
    PidsCount(l, m);
    Subset(AtLeast(latest, t), Pids(l, m));
  }

  /** Place k of the board holds a value of at least t exactly when more than k players have one: the
      board shows the largest values of all players, in order. */
  lemma BoardIsTop(l: seq<Entry>, latest: map<Pid, int>, k: nat, t: int)
    requires Board(l, latest) && k < 100
    ensures k < |l| && l[k].value >= t <==> |AtLeast(latest, t)| > k
  {
    if k < |l| && l[k].value >= t {
      TopEnough(l, latest, k, t);
    } else {
      TopNoMore(l, latest, k, t, if k < |l| then k else |l|);
    }
  }

  /** Over every run in which no listed player falls, in particular over every run with per-player
      non-decreasing values, the list is the top hundred of all players' latest values. */
  lemma EveryRunShowsTheTop(history: seq<Entry>, k: nat, t: int)
    requires (Legal(history) || Monotone(history)) && k < 100
    ensures Descending(Run(history)) && Distinct(Run(history)) && |Run(history)| <= 100
    ensures k < |Run(history)| && Run(history)[k].value >= t <==> |AtLeast(Latest(history), t)| > k
  {
    if Monotone(history) { MonotoneIsLegal(history); }
    RunIsBoard(history);
    BoardIsTop(Run(history), Latest(history), k, t);
  }

  // ---------- the array as it is updated ----------

  class Ranking {
    var n: nat
    const top: array<Entry>

    /** Places that are not filled are zero, as the static array starts. */
    ghost predicate Valid()
      reads this, top
    {
      n <= RANK_COUNT == top.Length && forall i :: n <= i < RANK_COUNT ==> top[i] == Entry(0, 0)
    }

    ghost function Entries(): seq<Entry>
      requires Valid()
      reads this, top
    {
      top[..n]
    }

    constructor ()
      ensures Valid() && Entries() == []
    {
      n := 0;
      top := new Entry[RANK_COUNT](_ => Entry(0, 0));
    }

    /** rank_get: the entry at a filled place, player 0 anywhere else. */
    method Get(index: nat) returns (pid: Pid, value: int)
      requires Valid()
      ensures if 1 <= index <= n then Entry(pid, value) == Entries()[index - 1] else pid == 0 && value == 0
    {
      if index < 1 || index > RANK_COUNT {
        return 0, 0;
      }
      return top[index - 1].pid, top[index - 1].value;
    }

    method BringForward(start: nat)
      requires Valid() && start < n
      modifies top
      ensures Valid() && top[..n] == Forward(old(top[..n]), start)
    {
      var i: nat := start;
      while i > 0
        invariant i <= start && Forward(top[..n], i) == Forward(old(top[..n]), start)
        invariant forall j :: n <= j < RANK_COUNT ==> top[j] == Entry(0, 0)
      {
        if top[i - 1].value < top[i].value {
          ghost var l := top[..n];
          top[i], top[i - 1] := top[i - 1], top[i];
          assert top[..n] == l[i := l[i - 1]][i - 1 := l[i]];
        }
        i := i - 1;
      }
      assert Forward(top[..n], 0) == top[..n];
    }

    /** rank_insert; what it demands is the assertion it makes once it has not turned the value away. */
    method Put(pid: Pid, value: int)
      requires Valid()
      requires (n == RANK_COUNT && value <= Entries()[RANK_COUNT - 1].value) || Allowed(Entries(), pid, value)
      modifies this, top
      ensures Valid() && Entries() == Insert(old(Entries()), pid, value)
    {
      ghost var l := Entries();
      if n >= RANK_COUNT && value <= top[RANK_COUNT - 1].value {
        return;
      }
      var i := 0;
      while i < n && top[i].pid != pid
        invariant 0 <= i <= n && forall j :: 0 <= j < i ==> top[j].pid != pid
      {
        i := i + 1;
      }
      assert i == IndexOf(l, pid);
      if i < n {
        assert value >= l[i].value;
        top[i] := Entry(pid, value);
        assert top[..n] == l[i := Entry(pid, value)];
      } else if n < RANK_COUNT {
        top[n] := Entry(pid, value);
        n := n + 1;
        assert top[..n] == l + [Entry(pid, value)];
      } else {
        top[RANK_COUNT - 1] := Entry(pid, value);
        i := RANK_COUNT - 1;
        assert top[..n] == l[i := Entry(pid, value)];
      }
      BringForward(i);
    }
  }
}
