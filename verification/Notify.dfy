/**
  The batched event counts of world/notify.c: counts per player and event type are collected in a table of
  100 slots and reported to the backend after three seconds, or when the table is full.
 */
module Notify {
  import opened Bytes

  const NB_COUNT: nat := 100
  const NB_DELAY: int := 3
  const NB_PLAYER_MIN: nat := 4
  const NB_PLAYER_MAX: nat := 24

  /** The 32-bit counters of all event types. */
  type Counts = v: seq<uint32> | |v| == 25 witness NO_COUNTS

  const NO_COUNTS: seq<uint32> := [0, 0, 0, 0, 0, 0, 0, 0, 0, 0, 0, 0, 0, 0, 0, 0, 0, 0, 0, 0, 0, 0, 0, 0, 0]

  datatype Player = Player(pid: nat, time: int, value: Counts)

  const ZERO: Player := Player(0, 0, NO_COUNTS)

  /** One report to the backend, or one recorded count. */
  datatype Count = Count(pid: nat, event: nat, value: nat)

  // ---------- what a clean sends and keeps ----------

  /** The reports for one player from event e on. */
  function Reports(p: Player, e: nat): (r: seq<Count>)
    requires e <= NB_PLAYER_MAX + 1
    decreases NB_PLAYER_MAX + 1 - e
  {
    if e > NB_PLAYER_MAX then []
    else (if p.value[e] > 0 then [Count(p.pid, e, p.value[e])] else []) + Reports(p, e + 1)
  }

  predicate Due(p: Player, force: bool, deadline: int) {
    force || p.time <= deadline
  }

  ghost function Sent(s: seq<Player>, force: bool, deadline: int): (r: seq<Count>) {
    if s == [] then []
    else Sent(s[..|s| - 1], force, deadline) + (if Due(s[|s| - 1], force, deadline) then Reports(s[|s| - 1], NB_PLAYER_MIN) else [])
  }

  ghost function Kept(s: seq<Player>, force: bool, deadline: int): (r: seq<Player>)
    ensures |r| <= |s| && forall i :: 0 <= i < |r| ==> r[i] in s && !Due(r[i], force, deadline)
  {
    if s == [] then []
    else Kept(s[..|s| - 1], force, deadline) + (if Due(s[|s| - 1], force, deadline) then [] else [s[|s| - 1]])
  }

  /** A clean keeps exactly the players whose last count is less than three seconds old, and nobody if forced. */
  lemma {:induction false} KeptIs(s: seq<Player>, force: bool, now: int)
    ensures forall p :: p in Kept(s, force, now - NB_DELAY) <==> p in s && !force && p.time > now - 3
  {
    if s != [] {
      KeptIs(s[..|s| - 1], force, now);
      assert s == s[..|s| - 1] + [s[|s| - 1]];
    }
  }

  // ---------- conservation ----------

  ghost function Amount(c: Count, pid: nat, e: nat): nat {
    if c.pid == pid && c.event == e then c.value else 0
  }

  /** The counts of one player and event in a list of reports. */
  ghost function Total(l: seq<Count>, pid: nat, e: nat): nat {
    if l == [] then 0
    else Total(l[..|l| - 1], pid, e) + Amount(l[|l| - 1], pid, e)
  }

  /** The counts of one player and event that still wait in the table. */
  ghost function Pending(s: seq<Player>, pid: nat, e: nat): nat
    requires e <= NB_PLAYER_MAX
  {
    if s == [] then 0
    else Pending(s[..|s| - 1], pid, e) + Has(s[|s| - 1], pid, e)
  }

  ghost function Has(p: Player, pid: nat, e: nat): nat
    requires e <= NB_PLAYER_MAX
  {
    if p.pid == pid then p.value[e] else 0
  }

  lemma {:induction false} TotalAppend(a: seq<Count>, b: seq<Count>, pid: nat, e: nat)
    ensures Total(a + b, pid, e) == Total(a, pid, e) + Total(b, pid, e)
  {
    if b == [] {
      assert a + b == a;
    } else {
      assert (a + b)[..|a + b| - 1] == a + b[..|b| - 1];
      TotalAppend(a, b[..|b| - 1], pid, e);
    }
  }

  lemma TotalOne(c: Count, pid: nat, e: nat)
    ensures Total([c], pid, e) == Amount(c, pid, e)
  {
    assert [c][..0] == [];
  }

  lemma PendingOne(p: Player, pid: nat, e: nat)
    requires e <= NB_PLAYER_MAX
    ensures Pending([p], pid, e) == Has(p, pid, e)
  {
    assert [p][..0] == [];
  }

  lemma {:induction false} PendingAppend(a: seq<Player>, b: seq<Player>, pid: nat, e: nat)
    requires e <= NB_PLAYER_MAX
    ensures Pending(a + b, pid, e) == Pending(a, pid, e) + Pending(b, pid, e)
  {
    if b == [] {
      assert a + b == a;
    } else {
      assert (a + b)[..|a + b| - 1] == a + b[..|b| - 1];
      PendingAppend(a, b[..|b| - 1], pid, e);
    }
  }

  /** The reports for a player carry exactly the counts of the reported events. */
  lemma {:induction false} ReportsTotal(p: Player, from: nat, pid: nat, e: nat)
    requires from <= NB_PLAYER_MAX + 1 && e <= NB_PLAYER_MAX
    ensures Total(Reports(p, from), pid, e) == if from <= e then Has(p, pid, e) else 0
    decreases NB_PLAYER_MAX + 1 - from
  {
    if from <= NB_PLAYER_MAX {
      var first := if p.value[from] > 0 then [Count(p.pid, from, p.value[from])] else [];
      ReportsTotal(p, from + 1, pid, e);
      TotalAppend(first, Reports(p, from + 1), pid, e);
      if first != [] { TotalOne(first[0], pid, e); }
    }
  }

  /** A clean loses nothing: what it sends and what it keeps add up to what was waiting. */
  lemma {:induction false} CleanConserves(s: seq<Player>, force: bool, deadline: int, pid: nat, e: nat)
    requires 4 <= e <= 24
    ensures Total(Sent(s, force, deadline), pid, e) + Pending(Kept(s, force, deadline), pid, e) == Pending(s, pid, e)
  {
    if s != [] {
      var init, p := s[..|s| - 1], s[|s| - 1];
      CleanConserves(init, force, deadline, pid, e);
      if Due(p, force, deadline) {
        TotalAppend(Sent(init, force, deadline), Reports(p, NB_PLAYER_MIN), pid, e);
        ReportsTotal(p, NB_PLAYER_MIN, pid, e);
        assert Kept(init, force, deadline) + [] == Kept(init, force, deadline);
      } else {
        PendingAppend(Kept(init, force, deadline), [p], pid, e);
        PendingOne(p, pid, e);
        assert Sent(init, force, deadline) + [] == Sent(init, force, deadline);
      }
    }
  }

  /** Changing one slot changes what waits by the difference. */
  lemma {:induction false} PendingUpdate(s: seq<Player>, k: nat, p: Player, pid: nat, e: nat)
    requires k < |s| && e <= NB_PLAYER_MAX
    ensures Pending(s[k := p], pid, e) + Has(s[k], pid, e) == Pending(s, pid, e) + Has(p, pid, e)
  {
    var t := s[k := p];
    if k == |s| - 1 {
      assert t[..|t| - 1] == s[..|s| - 1];
    } else {
      assert t[..|t| - 1] == s[..|s| - 1][k := p];
      PendingUpdate(s[..|s| - 1], k, p, pid, e);
    }
  }

  /** Recorded is sent plus waiting, in the 32-bit arithmetic of the counters. */
  ghost predicate Conserved(recorded: seq<Count>, log: seq<Count>, s: seq<Player>) {
    forall pid: nat, e: nat :: 4 <= e <= 24 ==>
      Total(recorded, pid, e) % WORD == (Total(log, pid, e) + Pending(s, pid, e)) % WORD
  }

  lemma ConservedByClean(recorded: seq<Count>, log: seq<Count>, s: seq<Player>, force: bool, deadline: int)
    requires Conserved(recorded, log, s)
    ensures Conserved(recorded, log + Sent(s, force, deadline), Kept(s, force, deadline))
  {
    var sent, kept := Sent(s, force, deadline), Kept(s, force, deadline);
    hide Total, Pending, Sent, Kept;
    forall pid: nat, e: nat | NB_PLAYER_MIN <= e <= NB_PLAYER_MAX
      ensures Total(recorded, pid, e) % WORD == (Total(log + sent, pid, e) + Pending(kept, pid, e)) % WORD
    {
      TotalAppend(log, sent, pid, e);
      CleanConserves(s, force, deadline, pid, e);
    }
  }

  /** A slot for a player with nothing counted yet. */
  function Fresh(pid: nat): Player {
    Player(pid, 0, ZERO.value)
  }

  lemma ConservedByFresh(recorded: seq<Count>, log: seq<Count>, s: seq<Player>, pid: nat)
    requires Conserved(recorded, log, s)
    ensures Conserved(recorded, log, s + [Fresh(pid)])
  {
    var p := Fresh(pid);
    hide Total, Pending, Sent, Kept;
    forall x: nat, e: nat | NB_PLAYER_MIN <= e <= NB_PLAYER_MAX
      ensures Total(recorded, x, e) % WORD == (Total(log, x, e) + Pending(s + [p], x, e)) % WORD
    {
      PendingAppend(s, [p], x, e);
      PendingOne(p, x, e);
    }
  }

  /** The count added to a slot. */
  function Counted(p: Player, e: nat, value: nat, now: int): Player
    requires e <= NB_PLAYER_MAX
  {
    Player(p.pid, now, p.value[e := (p.value[e] + value) % WORD])
  }

  lemma ConservedByCount(recorded: seq<Count>, log: seq<Count>, s: seq<Player>, k: nat, event: nat, value: nat, now: int)
    requires Conserved(recorded, log, s) && k < |s| && NB_PLAYER_MIN <= event <= NB_PLAYER_MAX
    ensures Conserved(recorded + [Count(s[k].pid, event, value)], log, s[k := Counted(s[k], event, value, now)])
  {
    var c := Count(s[k].pid, event, value);
    var p := Counted(s[k], event, value, now);
    hide Total, Pending;
    forall x: nat, e: nat | NB_PLAYER_MIN <= e <= NB_PLAYER_MAX
      ensures Total(recorded + [c], x, e) % WORD == (Total(log, x, e) + Pending(s[k := p], x, e)) % WORD
    {
      TotalAppend(recorded, [c], x, e);
      TotalOne(c, x, e);
      PendingUpdate(s, k, p, x, e);
      var h := Has(s[k], x, e);
      assert Has(p, x, e) == if Amount(c, x, e) == 0 then h else (h + Amount(c, x, e)) % WORD by {
        if s[k].pid == x && event == e && value == 0 { assert (h + 0) % WORD == h; }
      }
      Shift(Total(recorded, x, e), Total(log, x, e), Pending(s, x, e), Pending(s[k := p], x, e), h, Amount(c, x, e));
    }
  }

  /** Adding in 32 bits on both sides. */
  lemma Shift(t: nat, l: nat, p: nat, p': nat, h: nat, v: nat)
    requires t % WORD == (l + p) % WORD && p' + h == p + (if v == 0 then h else (h + v) % WORD)
    ensures (t + v) % WORD == (l + p') % WORD
  {
  }

  // ---------- the map ----------

  /** The map points at the slots in use, 0..w and i..u, each under its player. */
  ghost predicate Mapped(s: seq<Player>, m: map<nat, nat>, w: nat, i: nat, u: nat) {
    && w <= i <= u <= |s|
    && (forall k :: 0 <= k < w || i <= k < u ==> s[k].pid in m && m[s[k].pid] == k)
    && (forall pid :: pid in m ==> (m[pid] < w || i <= m[pid] < u) && s[m[pid]].pid == pid)
  }

  lemma MapDrop(s: seq<Player>, m: map<nat, nat>, w: nat, i: nat, u: nat)
    requires Mapped(s, m, w, i, u) && i < u
    ensures Mapped(s[i := ZERO], m - {s[i].pid}, w, i + 1, u)
  {
    var s', m' := s[i := ZERO], m - {s[i].pid};
    forall k | 0 <= k < w || i + 1 <= k < u ensures s'[k].pid in m' && m'[s'[k].pid] == k {
      assert s'[k] == s[k] && m[s[k].pid] == k && m[s[i].pid] == i;
    }
  }

  lemma MapStay(s: seq<Player>, m: map<nat, nat>, w: nat, u: nat)
    requires Mapped(s, m, w, w, u) && w < u
    ensures Mapped(s, m, w + 1, w + 1, u)
  {
  }

  lemma MapMove(s: seq<Player>, m: map<nat, nat>, w: nat, i: nat, u: nat)
    requires Mapped(s, m, w, i, u) && w < i < u
    ensures Mapped(s[w := s[i]][i := ZERO], m[s[i].pid := w], w + 1, i + 1, u)
  {
    var s', m' := s[w := s[i]][i := ZERO], m[s[i].pid := w];
    forall k | 0 <= k < w + 1 || i + 1 <= k < u ensures s'[k].pid in m' && m'[s'[k].pid] == k {
      if k != w { assert s'[k] == s[k] && m[s[k].pid] == k && m[s[i].pid] == i; }
    }
    forall pid | pid in m' ensures (m'[pid] < w + 1 || i + 1 <= m'[pid] < u) && s'[m'[pid]].pid == pid {
      if pid != s[i].pid { assert pid in m && m[pid] != i; }
    }
  }

  lemma MapNew(s: seq<Player>, m: map<nat, nat>, u: nat, pid: nat)
    requires Mapped(s, m, u, u, u) && u < |s| && pid !in m
    ensures Mapped(s[u := Fresh(pid)], m[pid := u], u + 1, u + 1, u + 1)
  {
    var s', m' := s[u := Fresh(pid)], m[pid := u];
    forall k | 0 <= k < u + 1 ensures s'[k].pid in m' && m'[s'[k].pid] == k {
      if k != u { assert s'[k] == s[k] && s[k].pid in m; }
    }
  }

  // ---------- the table ----------

  ghost predicate Zeros(s: seq<Player>, from: nat, to: nat) {
    forall k :: from <= k < to && k < |s| ==> s[k] == ZERO
  }

  class Batch {
    const player: array<Player>
    var used: nat
    var slots: map<nat, nat>   // nb_list.map: the slot of a player
    var log: seq<Count>        // the reports handed to the backend
    ghost var recorded: seq<Count>

    ghost predicate Valid()
      reads this, player
    {
      && player.Length == NB_COUNT && used <= NB_COUNT
      && Mapped(player[..], slots, used, used, used) && Zeros(player[..], used, NB_COUNT)
      && Conserved(recorded, log, player[..used])
    }

    /** _nb_init. */
    constructor ()
      ensures Valid() && fresh(player) && used == 0 && log == [] && recorded == []
    {
      player := new Player[NB_COUNT](_ => ZERO);
      used, slots, log, recorded := 0, map[], [], [];
      new;
      assert player[..used] == [];
    }

    /** _nb_get: the player's slot, or a fresh one, or none when the table is full. */
    method Get(pid: nat) returns (r: nat)
      requires Valid()
      modifies this`used, this`slots, player
      ensures Valid()
      ensures r == 100 <==> pid !in old(slots) && old(used) == 100
      ensures r != 100 ==> r < used && player[r].pid == pid
      ensures if pid in old(slots) || old(used) == 100 then player[..] == old(player[..]) && used == old(used)
              else player[..used] == old(player[..used]) + [Fresh(pid)]
    {
      if pid in slots {
        return slots[pid];
      }
      if used < NB_COUNT {
        ghost var s := player[..];
        MapNew(s, slots, used, pid);
        ConservedByFresh(recorded, log, player[..used], pid);
        r := used;
        assert s[used] == ZERO;
        hide Mapped, Conserved;
        player[used] := Player(pid, player[used].time, player[used].value);
        slots := slots[pid := used];
        used := used + 1;
        assert player[..] == s[r := Fresh(pid)];
        assert player[..used] == s[..r] + [Fresh(pid)];
        return;
      }
      return NB_COUNT;
    }

    /** The reports of one player, as the inner loop of _nb_clean sends them. */
    method Report(p: Player)
      modifies this`log
      ensures log == old(log) + Reports(p, NB_PLAYER_MIN)
    {
      var e := NB_PLAYER_MIN;
      while e <= NB_PLAYER_MAX
        invariant e <= NB_PLAYER_MAX + 1
        invariant log + Reports(p, e) == old(log) + Reports(p, NB_PLAYER_MIN)
      {
        ghost var was := log;
        if p.value[e] > 0 {
          log := log + [Count(p.pid, e, p.value[e])];
          assert log + Reports(p, e + 1) == was + ([Count(p.pid, e, p.value[e])] + Reports(p, e + 1));
        }
        e := e + 1;
      }
    }

    /** _nb_clean at time now: the table keeps, in order, the players that are not due, the others are reported,
        and the slots behind are cleared. */
    method Clean(force: bool, now: int)
      requires Valid()
      modifies this`used, this`slots, this`log, player
      ensures Valid()
      ensures player[..used] == Kept(old(player[..used]), force, now - NB_DELAY)
      ensures forall p :: p in player[..used] <==> p in old(player[..used]) && !force && p.time > now - 3
      ensures log == old(log) + Sent(old(player[..used]), force, now - NB_DELAY)
    {
      hide Conserved, Mapped, Zeros, Kept, Sent;
      ghost var s := player[..used];
      ConservedByClean(recorded, log, s, force, now - NB_DELAY);
      KeptIs(s, force, now);
      Compact(force, now - NB_DELAY);
      assert |player[..used]| <= |s|;
    }

    /** The loop of _nb_clean. */
    method Compact(force: bool, deadline: int)
      requires used <= player.Length == NB_COUNT
      requires Mapped(player[..], slots, used, used, used) && Zeros(player[..], used, NB_COUNT)
      modifies this`used, this`slots, this`log, player
      ensures used <= NB_COUNT && Mapped(player[..], slots, used, used, used) && Zeros(player[..], used, NB_COUNT)
      ensures player[..used] == Kept(old(player[..used]), force, deadline)
      ensures log == old(log) + Sent(old(player[..used]), force, deadline)
    {
      var u := used;
      ghost var s0, log0 := player[..], log;
      used := 0;
      StartCompacting(s0, slots, u, force, deadline, log0);
      hide *;
      var i: nat := 0;
      while i < u
        invariant used <= i <= u && Mapped(player[..], slots, used, i, u)
        invariant Compacted(s0, player[..], used, i, u, force, deadline)
        invariant log == log0 + Sent(s0[..i], force, deadline)
      {
        CleanOne(force, deadline, s0, log0, i, u);
        i := i + 1;
      }
      CompactedDone(s0, player[..], slots, used, u, force, deadline);
      assert player[..used] == player[..][..used] && s0[..u] == old(player[..used]);
    }

    /** One turn of the loop. */
    method CleanOne(force: bool, deadline: int, ghost s0: seq<Player>, ghost log0: seq<Count>, i: nat, ghost u: nat)
      requires used <= i < u <= player.Length == NB_COUNT
      requires Mapped(player[..], slots, used, i, u) && Compacted(s0, player[..], used, i, u, force, deadline)
      requires log == log0 + Sent(s0[..i], force, deadline)
      modifies this`used, this`slots, this`log, player
      ensures used <= i + 1 && Mapped(player[..], slots, used, i + 1, u)
      ensures Compacted(s0, player[..], used, i + 1, u, force, deadline)
      ensures log == log0 + Sent(s0[..i + 1], force, deadline)
    {
      hide *;
      ghost var s := player[..];
      NextUnchanged(s0, s, used, i, u, force, deadline);
      SentStep(s0, i, force, deadline, log0);
      if Due(player[i], force, deadline) {
        CompactedDrop(s0, s, used, i, u, force, deadline);
        DropOne(i, u);
      } else {
        CompactedKeep(s0, s, used, i, u, force, deadline);
        KeepOne(i, u);
      }
    }

    /** A player who is due is reported and forgotten. */
    method DropOne(i: nat, ghost u: nat)
      requires used <= i < u <= player.Length && Mapped(player[..], slots, used, i, u)
      modifies this`slots, this`log, player
      ensures Mapped(player[..], slots, used, i + 1, u)
      ensures player[..] == old(player[..])[i := ZERO] && log == old(log) + Reports(old(player[i]), NB_PLAYER_MIN)
    {
      ghost var s := player[..];
      hide *;
      MapDrop(s, slots, used, i, u);
      slots := slots - {player[i].pid};
      Report(player[i]);
      player[i] := ZERO;
      assert player[..] == s[i := ZERO];
    }

    /** A player who is not due moves up to the first free slot, if that is another one. */
    method KeepOne(i: nat, ghost u: nat)
      requires used <= i < u <= player.Length && Mapped(player[..], slots, used, i, u)
      modifies this`used, this`slots, player
      ensures used == old(used) + 1 && Mapped(player[..], slots, used, i + 1, u)
      ensures player[..] == KeepAt(old(player[..]), old(used), i)
    {
      ghost var s := player[..];
      hide Mapped;
      if used != i {
        MapMove(s, slots, used, i, u);
        slots := slots[player[i].pid := used];
        player[used] := player[i];
        player[i] := ZERO;
        assert player[..] == s[used := s[i]][i := ZERO];
      } else {
        MapStay(s, slots, used, u);
      }
      used := used + 1;
    }

    /** notification_backend: an event outside the range is ignored; any other count finds a slot, at the latest
        after a forced clean. */
    method Record(pid: nat, event: nat, value: uint32, now: int)
      requires Valid()
      modifies this, player
      ensures Valid() && old(log) <= log
      ensures if 4 <= event <= 24
              then recorded == old(recorded) + [Count(pid, event, value)] && pid in slots && player[slots[pid]].time == now
              else recorded == old(recorded) && log == old(log) && player[..] == old(player[..]) && used == old(used)
    {
      if event < NB_PLAYER_MIN || event > NB_PLAYER_MAX {
        return;
      }
      var k := Get(pid);
      hide *;
      if k == NB_COUNT {
        ForcedKeepsNothing(player[..used], now - NB_DELAY);
        Clean(true, now);
        k := Get(pid);
      }
      AddCount(k, event, value, now);
    }

    method AddCount(k: nat, event: nat, value: uint32, now: int)
      requires Valid() && k < used && NB_PLAYER_MIN <= event <= NB_PLAYER_MAX
      modifies this`recorded, player
      ensures Valid() && recorded == old(recorded) + [Count(old(player[k].pid), event, value)]
      ensures player[k] == Counted(old(player[k]), event, value, now)
      ensures old(player[k].pid) in slots && slots[old(player[k].pid)] == k
    {
      ghost var s, pid := player[..], player[k].pid;
      ConservedByCount(recorded, log, player[..used], k, event, value, now);
      MapSame(s, slots, used, k, Counted(player[k], event, value, now));
      assert s[k].pid in slots && slots[s[k].pid] == k;
      hide Conserved, Mapped, Counted;
      player[k] := Counted(player[k], event, value, now);
      assert player[..] == s[k := Counted(s[k], event, value, now)];
      assert player[..used] == s[..used][k := Counted(s[k], event, value, now)];
      recorded := recorded + [Count(pid, event, value)];
    }
  }

  lemma MapSame(s: seq<Player>, m: map<nat, nat>, u: nat, k: nat, p: Player)
    requires Mapped(s, m, u, u, u) && k < u && p.pid == s[k].pid
    ensures Mapped(s[k := p], m, u, u, u)
  {
  }

  /** Before slot i the players to keep stand in front and the rest is cleared, from i on nothing has changed. */
  ghost predicate Compacted(s0: seq<Player>, s: seq<Player>, w: nat, i: nat, u: nat, force: bool, deadline: int) {
    && w <= i <= u <= |s0| == |s|
    && s[..w] == Kept(s0[..i], force, deadline)
    && Zeros(s, w, i) && Zeros(s, u, |s|)
    && s[i..] == s0[i..]
  }

  ghost function KeepAt(s: seq<Player>, w: nat, i: nat): (t: seq<Player>)
    requires w <= i < |s|
  {
    if w == i then s else s[w := s[i]][i := ZERO]
  }

  lemma SentStep(s0: seq<Player>, i: nat, force: bool, deadline: int, log0: seq<Count>)
    requires i < |s0|
    ensures log0 + Sent(s0[..i + 1], force, deadline)
         == log0 + Sent(s0[..i], force, deadline) + (if Due(s0[i], force, deadline) then Reports(s0[i], NB_PLAYER_MIN) else [])
  {
    assert s0[..i + 1][..i] == s0[..i];
  }

  lemma NextUnchanged(s0: seq<Player>, s: seq<Player>, w: nat, i: nat, u: nat, force: bool, deadline: int)
    requires Compacted(s0, s, w, i, u, force, deadline) && i < u
    ensures i < |s| == |s0| && s[i] == s0[i]
  {
    assert s[i] == s[i..][0] == s0[i..][0] == s0[i];
  }

  lemma KeptStep(s0: seq<Player>, i: nat, force: bool, deadline: int)
    requires i < |s0|
    ensures Kept(s0[..i + 1], force, deadline) == Kept(s0[..i], force, deadline) + (if Due(s0[i], force, deadline) then [] else [s0[i]])
  {
    assert s0[..i + 1][..i] == s0[..i];
  }

  lemma CompactedDrop(s0: seq<Player>, s: seq<Player>, w: nat, i: nat, u: nat, force: bool, deadline: int)
    requires Compacted(s0, s, w, i, u, force, deadline) && i < u && s[i] == s0[i] && Due(s[i], force, deadline)
    ensures Compacted(s0, s[i := ZERO], w, i + 1, u, force, deadline)
  {
    KeptStep(s0, i, force, deadline);
    hide Kept;
    var t := s[i := ZERO];
    assert s[i + 1..] == s[i..][1..] && s0[i + 1..] == s0[i..][1..];
    assert t[..w] == s[..w] && t[i + 1..] == s[i + 1..];
  }

  lemma CompactedKeep(s0: seq<Player>, s: seq<Player>, w: nat, i: nat, u: nat, force: bool, deadline: int)
    requires Compacted(s0, s, w, i, u, force, deadline) && i < u && s[i] == s0[i] && !Due(s[i], force, deadline)
    ensures Compacted(s0, KeepAt(s, w, i), w + 1, i + 1, u, force, deadline)
  {
    KeptStep(s0, i, force, deadline);
    hide Kept;
    var t := KeepAt(s, w, i);
    assert s[i + 1..] == s[i..][1..] && s0[i + 1..] == s0[i..][1..];
    assert t[..w + 1] == s[..w] + [s[i]] && t[i + 1..] == s[i + 1..];
  }

  lemma StartCompacting(s0: seq<Player>, m: map<nat, nat>, u: nat, force: bool, deadline: int, log0: seq<Count>)
    requires Mapped(s0, m, u, u, u) && Zeros(s0, u, |s0|)
    ensures Mapped(s0, m, 0, 0, u) && Compacted(s0, s0, 0, 0, u, force, deadline)
    ensures log0 == log0 + Sent(s0[..0], force, deadline)
  {
  }

  lemma CompactedDone(s0: seq<Player>, s: seq<Player>, m: map<nat, nat>, w: nat, u: nat, force: bool, deadline: int)
    requires Compacted(s0, s, w, u, u, force, deadline) && Mapped(s, m, w, u, u)
    ensures w <= |s| && s[..w] == Kept(s0[..u], force, deadline) && Zeros(s, w, |s|) && Mapped(s, m, w, w, w)
  {
  }

  /** After a forced clean the table is empty. */
  lemma ForcedKeepsNothing(s: seq<Player>, deadline: int)
    ensures Kept(s, true, deadline) == []
  {
    var r := Kept(s, true, deadline);
    assert forall i :: 0 <= i < |r| ==> !Due(r[i], true, deadline);
  }
}
