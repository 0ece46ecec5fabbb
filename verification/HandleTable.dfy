/**
  The resource table of framework/lrm.c: a fixed number of slots, handed out under ids that change with
  every release, with the idle slots chained through the slots themselves.
 */
module HandleTable {
  import Modular
  import opened Bytes

  const INVALID_ID: nat := 0xFFFF_FFFF

  /** The next field: in use (0), the end of the idle list, or the next idle slot. */
  datatype Link = InUse | End | To(index: nat)

  datatype Slot = Slot(id: nat, next: Link)

  /** The id a slot gets when it is freed: one table size further in 32 bits, twice if that is INVALID_ID. */
  function NextId(id: nat, max: nat): (n: nat)
    ensures n < WORD
  {
    var n := (id + max) % WORD;
    if n == INVALID_ID then (n + max) % WORD else n
  }

  /** Ids of a slot keep growing exactly as long as the next one stays under INVALID_ID; past that an id of
      another slot, or one handed out long ago, comes back. */
  lemma IdsGrowUntilWrap(id: nat, max: nat)
    requires id < INVALID_ID && 0 < max < 0x8000_0000
    ensures NextId(id, max) > id <==> id + max < INVALID_ID
    ensures id + max < INVALID_ID ==> NextId(id, max) == id + max && NextId(id, max) % max == id % max
  {
    if id + max < INVALID_ID {
      Modular.DivModIdentity(id, max);
      Modular.MulDistribute(id / max, -1, max);
      Modular.ModIs(id + max, id / max + 1, id % max, max);
    }
  }

  /** With three slots, the last id of slot 2 is followed by an id of slot 1; with one slot, the ids start
      over. */
  lemma WrapMixesSlots()
    ensures 0xFFFF_FFFE % 3 == 2 && NextId(0xFFFF_FFFE, 3) == 1
    ensures NextId(0xFFFF_FFFE, 1) == 0
  {
  }

  // ---------- the invariant ----------

  /** The slot an id belongs to. */
  function Index(id: nat, max: nat): (i: nat)
    requires max > 0
    ensures i < max
  {
    id % max
  }

  function LinkAt(free: seq<nat>, k: nat): Link {
    if k < |free| then To(free[k]) else End
  }

  /** The idle list runs through the slots of free, in that order, and they are the ones not in use. */
  ghost predicate IdleList(s: seq<Slot>, idle: Link, free: seq<nat>) {
    && idle == LinkAt(free, 0)
    && (forall k :: 0 <= k < |free| ==> free[k] < |s| && s[free[k]].next == LinkAt(free, k + 1))
    && (forall j, k :: 0 <= j < k < |free| ==> free[j] != free[k])
    && (forall i :: 0 <= i < |s| && i !in free ==> s[i].next == InUse)
  }

  /** Ids belong to their slots; live holds the ids of the slots in use, and any other id ever given out is
      behind its slot's present id. */
  ghost predicate Ids(s: seq<Slot>, live: set<nat>, issued: set<nat>) {
    && |s| > 0
    && (forall i :: 0 <= i < |s| ==> Index(s[i].id, |s|) == i && s[i].id < INVALID_ID && (s[i].next == InUse ==> s[i].id in live))
    && (forall id :: id in live ==> id in issued && s[Index(id, |s|)] == Slot(id, InUse))
    && (forall id :: id in issued && id !in live ==> id < s[Index(id, |s|)].id)
  }

  /** The slots that init_lrm_idle_list lays out. */
  ghost predicate LaidOut(s: seq<Slot>) {
    0 < |s| < 0x8000_0000 && forall k :: 0 <= k < |s| ==> s[k] == Slot(k, if k + 1 < |s| then To(k + 1) else End)
  }

  lemma FirstList(s: seq<Slot>, free: seq<nat>)
    requires LaidOut(s) && |free| == |s| && forall k :: 0 <= k < |s| ==> free[k] == k
    ensures IdleList(s, To(0), free)
  {
    forall k | 0 <= k < |free| ensures free[k] < |s| && s[free[k]].next == LinkAt(free, k + 1) {
      assert free[k] == k;
      assert k + 1 < |s| ==> free[k + 1] == k + 1;
    }
    assert free[0] == 0;
    forall k | 0 <= k < |s| ensures k in free { assert free[k] == k; }
  }

  lemma FirstIds(s: seq<Slot>)
    requires LaidOut(s)
    ensures Ids(s, {}, {})
  {
    forall k: nat | k < |s| ensures Index(s[k].id, |s|) == k && s[k].id < INVALID_ID && s[k].next != InUse {
      Modular.ModSmall(k, |s|);
    }
  }

  lemma IdleTake(s: seq<Slot>, idle: Link, free: seq<nat>)
    requires IdleList(s, idle, free) && free != []
    ensures idle == To(free[0]) && free[0] < |s| && s[free[0]].next == LinkAt(free[1..], 0)
    ensures IdleList(s[free[0] := s[free[0]].(next := InUse)], s[free[0]].next, free[1..])
  {
    var rest := free[1..];
    var s' := s[free[0] := s[free[0]].(next := InUse)];
    forall k | 0 <= k < |rest| ensures rest[k] < |s'| && s'[rest[k]].next == LinkAt(rest, k + 1) {
      assert rest[k] == free[k + 1] != free[0];
    }
    forall i | 0 <= i < |s'| && i !in rest ensures s'[i].next == InUse {
      assert i == free[0] || i !in free;
    }
  }

  lemma IdleGive(s: seq<Slot>, idle: Link, free: seq<nat>, i: nat, id: nat)
    requires IdleList(s, idle, free) && i < |s| && s[i].next == InUse
    ensures IdleList(s[i := Slot(id, idle)], To(i), [i] + free)
  {
    NotIdle(s, idle, free, i);
    GiveLinks(s, idle, free, i, id);
    GiveOthers(s, free, i, Slot(id, idle));
    assert LinkAt([i] + free, 0) == To(i);
  }

  lemma GiveLinks(s: seq<Slot>, idle: Link, free: seq<nat>, i: nat, id: nat)
    requires i < |s| && idle == LinkAt(free, 0)
    requires forall k :: 0 <= k < |free| ==> free[k] < |s| && s[free[k]].next == LinkAt(free, k + 1) && free[k] != i
    ensures var all, s' := [i] + free, s[i := Slot(id, idle)];
      forall k :: 0 <= k < |all| ==> all[k] < |s'| && s'[all[k]].next == LinkAt(all, k + 1)
  {
    var all := [i] + free;
    var s' := s[i := Slot(id, idle)];
    forall k | 0 <= k < |all| ensures all[k] < |s'| && s'[all[k]].next == LinkAt(all, k + 1) {
      assert LinkAt(all, k + 1) == LinkAt(free, k);
      if k > 0 { assert all[k] == free[k - 1] != i && s[free[k - 1]].next == LinkAt(free, k); }
    }
  }

  lemma GiveOthers(s: seq<Slot>, free: seq<nat>, i: nat, slot: Slot)
    requires i < |s| && forall j, k :: 0 <= j < k < |free| ==> free[j] != free[k]
    requires forall k :: 0 <= k < |free| ==> free[k] != i
    requires forall j :: 0 <= j < |s| && j !in free ==> s[j].next == InUse
    ensures var all, s' := [i] + free, s[i := slot];
      && (forall j, k :: 0 <= j < k < |all| ==> all[j] != all[k])
      && (forall j :: 0 <= j < |s'| && j !in all ==> s'[j].next == InUse)
  {
    var all := [i] + free;
    forall j, k | 0 <= j < k < |all| ensures all[j] != all[k] {
      assert all[k] == free[k - 1];
      if j > 0 { assert all[j] == free[j - 1]; }
    }
    forall j | 0 <= j < |s| && j !in all ensures s[i := slot][j].next == InUse {
      InFront(i, free, j);
    }
  }

  lemma InFront(i: nat, free: seq<nat>, j: nat)
    requires j !in [i] + free
    ensures j != i && j !in free
  {
    assert ([i] + free)[0] == i;
    assert forall k :: 0 <= k < |free| ==> ([i] + free)[k + 1] == free[k];
  }

  lemma NotIdle(s: seq<Slot>, idle: Link, free: seq<nat>, i: nat)
    requires IdleList(s, idle, free) && i < |s| && s[i].next == InUse
    ensures forall k :: 0 <= k < |free| ==> free[k] != i
  {
    forall k | 0 <= k < |free| ensures free[k] != i {
      assert s[free[k]].next == LinkAt(free, k + 1);
    }
  }

  lemma IdsTake(s: seq<Slot>, live: set<nat>, issued: set<nat>, i: nat)
    requires Ids(s, live, issued) && i < |s| && s[i].next != InUse
    ensures s[i].id !in issued
    ensures Ids(s[i := s[i].(next := InUse)], live + {s[i].id}, issued + {s[i].id})
  {
    assert Index(s[i].id, |s|) == i;
  }

  lemma IdsGive(s: seq<Slot>, live: set<nat>, issued: set<nat>, id: nat, next: Link)
    requires Ids(s, live, issued) && id in live && next != InUse
    requires |s| < 0x8000_0000 && id + |s| < INVALID_ID
    ensures Ids(s[Index(id, |s|) := Slot(NextId(id, |s|), next)], live - {id}, issued)
  {
    IdsGrowUntilWrap(id, |s|);
    var i := Index(id, |s|);
    forall x | x in live && x != id ensures Index(x, |s|) != i {
      assert s[Index(x, |s|)] == Slot(x, InUse) && s[i] == Slot(id, InUse);
    }
  }

  /** No two live handles stand for the same slot. */
  lemma LiveHandlesDiffer(s: seq<Slot>, live: set<nat>, issued: set<nat>, a: nat, b: nat)
    requires Ids(s, live, issued) && a in live && b in live && Index(a, |s|) == Index(b, |s|)
    ensures a == b
  {
  }

  /** Idle slots and live handles partition the table: a slot is idle exactly when its id is not live. */
  lemma Partition(s: seq<Slot>, idle: Link, free: seq<nat>, live: set<nat>, issued: set<nat>, i: nat)
    requires IdleList(s, idle, free) && Ids(s, live, issued) && i < |s|
    ensures i in free <==> s[i].id !in live
  {
    if i in free {
      var k :| 0 <= k < |free| && free[k] == i;
      assert s[i].next == LinkAt(free, k + 1);
    }
  }

  /** Freeing an id that its slot has not given out closes the idle list into a ring: no sequence of slots is
      the idle list any more. */
  lemma FreeingIdleBreaks(s: seq<Slot>, idle: Link, free: seq<nat>, i: nat, id: nat, list: seq<nat>)
    requires IdleList(s, idle, free) && i in free
    ensures !IdleList(s[i := Slot(id, idle)], To(i), list)
  {
    var t := s[i := Slot(id, idle)];
    if IdleList(t, To(i), list) {
      var p :| 0 <= p < |free| && free[p] == i;
      FollowIdle(s, idle, free, i, id, list, p);
    }
  }

  lemma {:induction false} FollowIdle(s: seq<Slot>, idle: Link, free: seq<nat>, i: nat, id: nat, list: seq<nat>, p: nat)
    requires IdleList(s, idle, free) && i < |s| && p < |free| && forall q :: 0 <= q < p ==> free[q] != i
    requires IdleList(s[i := Slot(id, idle)], To(i), list)
    ensures p + 1 < |list| && list[0] == i && list[p + 1] == free[p]
  {
    var t := s[i := Slot(id, idle)];
    assert |list| > 0 && list[0] == i;
    if p == 0 {
      assert t[list[0]].next == LinkAt(list, 1);
    } else {
      FollowIdle(s, idle, free, i, id, list, p - 1);
      assert t[list[p]].next == LinkAt(list, p + 1) && s[free[p - 1]].next == LinkAt(free, p);
    }
  }

  class Table {
    const slots: array<Slot>
    var idle: Link
    ghost var free: seq<nat>     // the idle list
    ghost var live: set<nat>     // the handles in use
    ghost var issued: set<nat>   // every handle ever given out

    ghost predicate Valid()
      reads this, slots
    {
      && 0 < slots.Length < 0x8000_0000
      && IdleList(slots[..], idle, free) && Ids(slots[..], live, issued)
    }

    /** _agRM_new and init_lrm_idle_list; max is a positive int. */
    constructor (max: nat)
      requires 0 < max < 0x8000_0000
      ensures Valid() && fresh(slots) && slots.Length == max
      ensures live == {} && issued == {} && free == seq(max, i requires 0 <= i < max => i)
    {
      slots := new Slot[max](i => Slot(0, End));
      idle := End;
      live, issued, free := {}, {}, [];
      new;
      var i: nat := max;
      while i > 0
        invariant i <= max && free == seq(max - i, k requires 0 <= k < max - i => i + k)
        invariant idle == if i < max then To(i) else End
        invariant forall k :: i <= k < max ==> slots[k] == Slot(k, if k + 1 < max then To(k + 1) else End)
        invariant live == {} && issued == {}
      {
        i := i - 1;
        slots[i] := Slot(i, idle);
        idle := To(i);
        free := [i] + free;
      }
      assert LaidOut(slots[..]);
      FirstList(slots[..], free);
      FirstIds(slots[..]);
    }

    /** get_lresource. */
    method Locate(id: nat) returns (found: bool, i: nat)
      requires 0 < slots.Length
      ensures i == Index(id, slots.Length) && i < slots.Length && (found <==> slots[i].id == id)
    {
      i := Index(id, slots.Length);
      found := slots[i].id == id;
    }

    /** _agR_new: INVALID_ID when nothing is idle, otherwise a handle that was never given out before. */
    method New() returns (r: nat)
      requires Valid()
      modifies this, slots
      ensures Valid() && (r == INVALID_ID <==> old(free) == [])
      ensures r == INVALID_ID ==> live == old(live) && issued == old(issued) && free == old(free)
      ensures r != INVALID_ID ==>
        && r !in old(issued) && Index(r, slots.Length) == old(free)[0]
        && live == old(live) + {r} && issued == old(issued) + {r} && free == old(free)[1..]
    {
      if idle == End {
        return INVALID_ID;
      }
      ghost var s := slots[..];
      IdleTake(s, idle, free);
      var i := idle.index;
      assert s[i].next == LinkAt(free, 1);
      IdsTake(s, live, issued, i);
      r := slots[i].id;
      assert Index(r, slots.Length) == i && r < INVALID_ID;
      hide IdleList, Ids;
      idle := slots[i].next;
      slots[i] := slots[i].(next := InUse);
      assert slots[..] == s[i := s[i].(next := InUse)];
      free, live, issued := free[1..], live + {r}, issued + {r};
    }

    /** _agR_get: any id that is its slot's present one resolves, used or not; a handle that was given out resolves
        exactly while it is live. */
    method Get(id: nat) returns (r: nat)
      requires Valid()
      ensures r == if slots[Index(id, slots.Length)].id == id then Index(id, slots.Length) else slots.Length
      ensures id in issued ==> (r < slots.Length <==> id in live)
      ensures id in live ==> slots[r] == Slot(id, InUse)
    {
      var found, i := Locate(id);
      ghost var s := slots[..];
      assert s[i] == slots[i];
      r := if found then i else slots.Length;
    }

    /** _agR_free: the handle dies for good; freeing it once more does nothing. */
    method Free(id: nat)
      requires Valid() && id in issued && (id in live ==> id + slots.Length < INVALID_ID)
      modifies this, slots
      ensures Valid() && issued == old(issued) && live == old(live) - {id}
      ensures id in old(live) ==> free == [Index(id, slots.Length)] + old(free)
      ensures id !in old(live) ==> free == old(free) && idle == old(idle) && slots[..] == old(slots[..])
    {
      var found, i := Locate(id);
      ghost var s := slots[..];
      assert s[i] == slots[i];
      if found {
        assert id in live && s[i] == Slot(id, InUse);
        IdleGive(s, idle, free, i, NextId(id, slots.Length));
        IdsGive(s, live, issued, id, idle);
        hide IdleList, Ids, NextId;
        slots[i] := Slot(NextId(slots[i].id, slots.Length), idle);
        assert slots[..] == s[i := Slot(NextId(id, |s|), idle)];
        idle := To(i);
        free, live := [i] + free, live - {id};
      }
    }

    /** _agR_next: the live handle of the next slot in use. */
    method Next(ite: nat) returns (r: nat)
      requires Valid()
      ensures var from := StartOf(ite, slots.Length);
        if r == INVALID_ID then NoneInUse(slots[..], from, slots.Length)
        else r in live && from <= Index(r, slots.Length) && NoneInUse(slots[..], from, Index(r, slots.Length))
    {
      hide Ids, IdleList, Index, StartOf, NoneInUse;
      var index := Scan(StartOf(ite, slots.Length));
      if index < slots.Length {
        LiveSlot(slots[..], live, issued, index);
        return slots[index].id;
      }
      return INVALID_ID;
    }

    /** The first slot in use from a place on. */
    method Scan(from: nat) returns (index: nat)
      requires from <= slots.Length
      ensures from <= index <= slots.Length && NoneInUse(slots[..], from, index)
      ensures index < slots.Length ==> slots[index].next == InUse
    {
      index := from;
      while index < slots.Length && slots[index].next != InUse
        invariant from <= index <= slots.Length && NoneInUse(slots[..], from, index)
      {
        index := index + 1;
      }
    }
  }

  lemma LiveSlot(s: seq<Slot>, live: set<nat>, issued: set<nat>, i: nat)
    requires Ids(s, live, issued) && i < |s| && s[i].next == InUse
    ensures s[i].id in live && Index(s[i].id, |s|) == i && s[i].id < INVALID_ID
  {
  }

  /** Where the scan of _agR_next starts. */
  function StartOf(ite: nat, max: nat): (from: nat)
    requires max > 0
    ensures from <= max
  {
    if ite == INVALID_ID then 0 else Index(ite, max) + 1
  }

  ghost predicate NoneInUse(s: seq<Slot>, from: nat, to: nat) {
    forall i :: from <= i < to && i < |s| ==> s[i].next != InUse
  }
}
