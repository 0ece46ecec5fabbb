/**
  The write-behind records that code_generate/code_generate.cpp emits for every message: setters
  that only touch memory, an intrusive list of records to write, and a flush that saves what has
  been dirty long enough. The database is a table of rows; each update of a row either succeeds
  as a whole or fails as a whole.
 */
module WriteBehind {

  type Id = nat     // a record, that is, its address
  type Field = nat  // a field id, below 64

  /** update_next: null off the list, the address of the sentinel at its end, or the next record. */
  datatype Link = Off | End | To(id: Id)

  datatype Flag = Live | Deleted | Released

  /** dirty is the bit mask, as the set of the fields whose bits are set. */
  datatype Rec<V> = Rec(fields: map<Field, V>, dirty: set<Field>, dirtyTime: nat, changeTime: nat, flag: Flag)

  const DIRTY_LIMIT := 30
  const QUIET_LIMIT := 5

  // ---------- the intrusive list ----------

  function LinkAt(list: seq<Id>, i: nat): Link
    requires i <= |list|
  {
    if i == |list| then End else To(list[i])
  }

  ghost predicate NoDup(list: seq<Id>) {
    forall i, j :: 0 <= i < j < |list| ==> list[i] != list[j]
  }

  /** Following the links from head visits exactly the ids of the list, in order. */
  ghost predicate Chain(next: map<Id, Link>, head: Link, list: seq<Id>) {
    && NoDup(list)
    && head == LinkAt(list, 0)
    && forall i :: 0 <= i < |list| ==> list[i] in next && next[list[i]] == LinkAt(list, i + 1)
  }

  lemma ChainPush(next: map<Id, Link>, head: Link, list: seq<Id>, id: Id)
    requires Chain(next, head, list) && id !in list
    ensures Chain(next[id := head], To(id), [id] + list)
  {
    var l := [id] + list;
    var n := next[id := head];
    forall i | 0 <= i < |l| ensures l[i] in n && n[l[i]] == LinkAt(l, i + 1) {
      if i > 0 { assert l[i] == list[i - 1] && list[i - 1] in list; }
    }
  }

  lemma ChainPop(next: map<Id, Link>, head: Link, list: seq<Id>)
    requires Chain(next, head, list) && list != []
    ensures head == To(list[0]) && list[0] in next && list[0] !in list[1..]
    ensures Chain(next, next[list[0]], list[1..])
  {
  }

  /** Links of records that are not on a chain do not matter to it. */
  lemma ChainFrame(next: map<Id, Link>, next': map<Id, Link>, head: Link, list: seq<Id>)
    requires Chain(next, head, list)
    requires forall id :: id in list && id in next ==> id in next' && next'[id] == next[id]
    ensures Chain(next', head, list)
  {
    forall i | 0 <= i < |list| ensures list[i] in next' && next'[list[i]] == LinkAt(list, i + 1) {
      assert list[i] in list;
    }
  }

  // ---------- records and rows ----------

  function Saved<V>(r: Rec<V>): Rec<V> {
    r.(dirty := {}, dirtyTime := 0, changeTime := 0)
  }

  /** The row after an update statement with the dirty fields of the record. */
  function Row<V>(row: map<Field, V>, r: Rec<V>): map<Field, V> {
    row + map f | f in r.fields && f in r.dirty :: r.fields[f]
  }

  /** The table after that statement; it touches no row if there is none. */
  function Write<V>(db: map<Id, map<Field, V>>, id: Id, r: Rec<V>): map<Id, map<Field, V>> {
    if id in db then db[id := Row(db[id], r)] else db
  }

  /** Every field whose bit is clear equals its column. */
  ghost predicate CleanAgrees<V>(r: Rec<V>, row: map<Field, V>) {
    forall f :: f in r.fields && f !in r.dirty ==> f in row && row[f] == r.fields[f]
  }

  /** The time stamps say since when the record is dirty and when it changed last. */
  ghost predicate Stamped<V>(r: Rec<V>, clock: nat) {
    if r.dirty == {} then r.dirtyTime == r.changeTime == 0
    else 0 < r.dirtyTime <= r.changeTime <= clock
  }

  lemma RowAgrees<V>(r: Rec<V>, row: map<Field, V>)
    requires CleanAgrees(r, row)
    ensures CleanAgrees(Saved(r), Row(row, r))
    ensures forall f :: f in r.fields ==> f in Row(row, r) && Row(row, r)[f] == r.fields[f]
  {
  }

  /** The record is due: dirty for 30 seconds, or unchanged for five. */
  predicate Due<V>(r: Rec<V>, now: nat) {
    now - r.dirtyTime >= DIRTY_LIMIT || now - r.changeTime >= QUIET_LIMIT
  }

  /** What a setter does to a record. */
  function Changed<V>(r: Rec<V>, f: Field, v: V, now: nat): Rec<V> {
    r.(fields := r.fields[f := v], dirty := r.dirty + {f},
       dirtyTime := if r.dirtyTime == 0 then now else r.dirtyTime, changeTime := now)
  }

  /** Only this record may differ. */
  ghost predicate OnlyRecord<V>(recs: map<Id, Rec<V>>, recs': map<Id, Rec<V>>, id: Id) {
    recs'.Keys == recs.Keys && forall i :: i in recs && i != id ==> recs'[i] == recs[i]
  }

  /** One field has its new value and its bit; the other fields, bits and the flag are as they were. */
  ghost predicate OneFieldSet<V>(r: Rec<V>, r': Rec<V>, f: Field, v: V) {
    && f in r'.fields && r'.fields[f] == v && f in r'.dirty && r'.fields.Keys == r.fields.Keys && r'.flag == r.flag
    && forall g :: g != f ==> (g in r'.dirty <==> g in r.dirty) && (g in r.fields ==> r'.fields[g] == r.fields[g])
  }

  lemma ChangedIs<V>(recs: map<Id, Rec<V>>, id: Id, f: Field, v: V, now: nat)
    requires id in recs && f in recs[id].fields
    ensures var recs' := recs[id := Changed(recs[id], f, v, now)];
            OnlyRecord(recs, recs', id) && OneFieldSet(recs[id], recs'[id], f, v)
  {
  }

  // ---------- the invariant, part by part ----------

  /** A record and its row: the stamps are right, and unless the row was deleted, clean fields agree. */
  ghost predicate RecOk<V>(id: Id, r: Rec<V>, db: map<Id, map<Field, V>>, clock: nat) {
    Stamped(r, clock) && (r.flag != Deleted ==> id in db && CleanAgrees(r, db[id]))
  }

  ghost predicate DataOk<V>(recs: map<Id, Rec<V>>, db: map<Id, map<Field, V>>, clock: nat) {
    forall id :: id in recs ==> RecOk(id, recs[id], db, clock)
  }

  /** The stamps of a dirty record: since when it has been dirty, and when it changed last. */
  ghost predicate StampsOk<V>(recs: map<Id, Rec<V>>, since: map<Id, nat>, last: map<Id, nat>) {
    forall id :: id in recs && recs[id].dirty != {} ==>
      id in since && id in last && recs[id].dirtyTime == since[id] && recs[id].changeTime == last[id]
  }

  /** A record that is clean or the same needs no new stamps. */
  lemma StampsPut<V>(recs: map<Id, Rec<V>>, since: map<Id, nat>, last: map<Id, nat>, id: Id, r: Rec<V>)
    requires StampsOk(recs, since, last)
    requires r.dirty == {} || (id in recs && r.dirty == recs[id].dirty && r.dirtyTime == recs[id].dirtyTime && r.changeTime == recs[id].changeTime)
    ensures StampsOk(recs[id := r], since, last)
  {
  }

  /** The first change of a clean record says since when it is dirty, every change when it changed last. */
  ghost predicate StampsSet<V>(r: Rec<V>, since: map<Id, nat>, last: map<Id, nat>,
                               since': map<Id, nat>, last': map<Id, nat>, id: Id, now: nat)
  {
    since' == (if r.dirty == {} then since[id := now] else since) && last' == last[id := now]
  }

  /** A change: the first one since the record was clean sets the first stamp, every one the second. */
  lemma StampsChanged<V>(recs: map<Id, Rec<V>>, since: map<Id, nat>, last: map<Id, nat>, id: Id, f: Field, v: V, now: nat, clock: nat)
    requires StampsOk(recs, since, last) && id in recs && Stamped(recs[id], clock) && now > 0
    ensures StampsOk(recs[id := Changed(recs[id], f, v, now)], if recs[id].dirty == {} then since[id := now] else since, last[id := now])
  {
  }

  /** The chain is the list, and exactly the records off the list have no link. */
  ghost predicate ListOk(ids: set<Id>, next: map<Id, Link>, head: Link, list: seq<Id>) {
    && next.Keys == ids
    && Chain(next, head, list)
    && forall id :: id in next ==> (next[id] == Off <==> id !in list)
  }

  /** The strays are the dirty records that no flush will ever visit. */
  ghost predicate StrayOk<V>(recs: map<Id, Rec<V>>, list: seq<Id>, stray: set<Id>) {
    forall id :: id in stray <==> id in recs && recs[id].dirty != {} && id !in list
  }

  /** Replacing one record, and at most its row, concerns no other record. */
  lemma DataPut<V>(recs: map<Id, Rec<V>>, db: map<Id, map<Field, V>>, clock: nat,
                   id: Id, r: Rec<V>, db': map<Id, map<Field, V>>, clock': nat)
    requires DataOk(recs, db, clock) && clock <= clock' && RecOk(id, r, db', clock')
    requires forall i :: i in db && i != id ==> i in db' && db'[i] == db[i]
    ensures DataOk(recs[id := r], db', clock')
  {
    hide CleanAgrees;
  }

  lemma DataGet<V>(recs: map<Id, Rec<V>>, db: map<Id, map<Field, V>>, clock: nat, id: Id)
    requires DataOk(recs, db, clock) && id in recs
    ensures RecOk(id, recs[id], db, clock)
  {
  }

  lemma DataLater<V>(recs: map<Id, Rec<V>>, db: map<Id, map<Field, V>>, clock: nat, now: nat)
    requires DataOk(recs, db, clock) && clock <= now
    ensures DataOk(recs, db, now)
  {
  }

  lemma SameFields<V>(r: Rec<V>, r': Rec<V>, row: map<Field, V>)
    requires CleanAgrees(r, row) && r'.fields == r.fields && r'.dirty == r.dirty
    ensures CleanAgrees(r', row)
  {
  }

  lemma SavedIsClean<V>(id: Id, r: Rec<V>, db: map<Id, map<Field, V>>)
    ensures Saved(r).dirty == {} && (r.dirty == {} && r.dirtyTime == r.changeTime == 0 ==> Saved(r) == r)
    ensures r.dirty == {} ==> Write(db, id, r) == db
    ensures forall i :: i in db && i != id ==> i in Write(db, id, r) && Write(db, id, r)[i] == db[i]
  {
    if r.dirty == {} && id in db { assert Row(db[id], r) == db[id]; }
  }

  lemma SavedOk<V>(id: Id, r: Rec<V>, db: map<Id, map<Field, V>>, clock: nat)
    requires RecOk(id, r, db, clock)
    ensures RecOk(id, Saved(r), Write(db, id, r), clock)
  {
    if r.flag != Deleted { RowAgrees(r, db[id]); }
  }

  lemma ChangedOk<V>(id: Id, r: Rec<V>, db: map<Id, map<Field, V>>, clock: nat, f: Field, v: V, now: nat)
    requires RecOk(id, r, db, clock) && 0 < now && clock <= now && f in r.fields
    ensures RecOk(id, Changed(r, f, v, now), db, now)
  {
    assert f in r.dirty + {f};
  }

  /** Every field of the record has reached its column. */
  ghost predicate InDatabase<V>(r: Rec<V>, db: map<Id, map<Field, V>>, id: Id) {
    id in db && forall f :: f in r.fields ==> f in db[id] && db[id][f] == r.fields[f]
  }

  /** Nothing but these columns of one row has changed. */
  ghost predicate OnlyColumns<V>(db: map<Id, map<Field, V>>, db': map<Id, map<Field, V>>, id: Id, columns: set<Field>) {
    && db.Keys == db'.Keys && (forall i :: i in db && i != id ==> db'[i] == db[i])
    && (id in db ==> forall f :: f in db[id] && f !in columns ==> f in db'[id] && db'[id][f] == db[id][f])
  }

  /** An update statement brings every field into its column and leaves the other columns and rows alone. */
  lemma SavedColumns<V>(id: Id, r: Rec<V>, db: map<Id, map<Field, V>>, clock: nat)
    requires RecOk(id, r, db, clock)
    ensures var db' := Write(db, id, r);
      && (r.flag != Deleted ==> InDatabase(r, db', id) && InDatabase(Saved(r), db', id))
      && OnlyColumns(db, db', id, r.dirty) && OnlyColumns(db, db, id, r.dirty)
  {
    if r.flag != Deleted { RowAgrees(r, db[id]); }
  }

  lemma ListPush(ids: set<Id>, next: map<Id, Link>, head: Link, list: seq<Id>, id: Id)
    requires ListOk(ids, next, head, list) && id in next && id !in list
    ensures ListOk(ids, next[id := head], To(id), [id] + list)
  {
    ChainPush(next, head, list, id);
    hide Chain;
    assert head != Off;
    forall i | i in next ensures next[id := head][i] == Off <==> i !in [id] + list {
      assert i in [id] + list <==> i == id || i in list;
    }
  }

  /** A new record starts off the list. */
  lemma ListNew(ids: set<Id>, next: map<Id, Link>, head: Link, list: seq<Id>, id: Id)
    requires ListOk(ids, next, head, list) && id !in ids
    ensures id !in list && ListOk(ids + {id}, next[id := Off], head, list)
  {
    ChainFrame(next, next[id := Off], head, list);
  }

  lemma StrayNew<V>(recs: map<Id, Rec<V>>, list: seq<Id>, stray: set<Id>, id: Id, r: Rec<V>)
    requires StrayOk(recs, list, stray) && id !in recs && r.dirty == {}
    ensures StrayOk(recs[id := r], list, stray)
  {
  }

  lemma StraySaved<V>(recs: map<Id, Rec<V>>, list: seq<Id>, stray: set<Id>, id: Id, r: Rec<V>)
    requires StrayOk(recs, list, stray) && id in recs && r.dirty == {}
    ensures StrayOk(recs[id := r], list, stray - {id})
  {
  }

  function Listed(list: seq<Id>, id: Id): seq<Id> {
    if id in list then list else [id] + list
  }

  lemma StrayListed<V>(recs: map<Id, Rec<V>>, list: seq<Id>, stray: set<Id>, id: Id, r: Rec<V>)
    requires StrayOk(recs, list, stray) && id in recs
    ensures StrayOk(recs[id := r], Listed(list, id), stray - {id})
  {
    forall i ensures i in Listed(list, id) <==> i == id || i in list {
    }
  }

  /** A setter keeps the invariant, apart from the list, which the record joins afterwards. */
  lemma ChangeKeeps<V>(recs: map<Id, Rec<V>>, db: map<Id, map<Field, V>>, list: seq<Id>, stray: set<Id>,
                       since: map<Id, nat>, last: map<Id, nat>, since': map<Id, nat>, last': map<Id, nat>,
                       id: Id, f: Field, v: V, now: nat)
    requires DataOk(recs, db, now) && StrayOk(recs, list, stray) && StampsOk(recs, since, last)
    requires id in recs && f in recs[id].fields && now > 0
    requires since' == (if recs[id].dirty == {} then since[id := now] else since) && last' == last[id := now]
    ensures StampsSet(recs[id], since, last, since', last', id, now)
    ensures var recs' := recs[id := Changed(recs[id], f, v, now)];
            && DataOk(recs', db, now) && StrayOk(recs', Listed(list, id), stray - {id}) && StampsOk(recs', since', last')
            && recs'.Keys == recs.Keys && OnlyRecord(recs, recs', id) && OneFieldSet(recs[id], recs'[id], f, v)
  {
    hide DataOk, StrayOk, Listed, StampsOk;
    var r := Changed(recs[id], f, v, now);
    DataGet(recs, db, now, id);
    ChangedOk(id, recs[id], db, now, f, v, now);
    StampsChanged(recs, since, last, id, f, v, now, now);
    ChangedIs(recs, id, f, v, now);
    hide RecOk, Changed, OnlyRecord, OneFieldSet;
    DataPut(recs, db, now, id, r, db, now);
    StrayListed(recs, list, stray, id, r);
    assert recs[id := r].Keys == recs.Keys;
  }

  // ---------- flushing ----------

  datatype Memory<V> = Memory(recs: map<Id, Rec<V>>, db: map<Id, map<Field, V>>)

  /** The record stays on the list. */
  predicate Stays<V>(r: Rec<V>, now: nat) {
    r.flag == Live && !Due(r, now)
  }

  /** What a flush does about one record of the list. */
  function Visit<V>(m: Memory<V>, id: Id, now: nat, good: bool): Memory<V> {
    if id !in m.recs then m
    else
      var r := m.recs[id];
      var saved := good || r.dirty == {};
      match r.flag
      case Released => Memory(m.recs - {id}, if saved then Write(m.db, id, r) else m.db)
      case Deleted => Memory(m.recs - {id}, m.db)
      case Live =>
        if Stays(r, now) || !saved then m
        else Memory(m.recs[id := Saved(r)], Write(m.db, id, r))
  }

  /** What a flush does about the records of the list, in order. */
  ghost function VisitAll<V>(m: Memory<V>, l: seq<Id>, now: nat, good: Id -> bool): Memory<V> {
    if l == [] then m else Visit(VisitAll(m, l[..|l| - 1], now, good), l[|l| - 1], now, good(l[|l| - 1]))
  }

  /** The records that stay, last one first. */
  ghost function Remaining<V>(recs: map<Id, Rec<V>>, l: seq<Id>, now: nat): seq<Id> {
    if l == [] then []
    else
      var id := l[|l| - 1];
      (if id in recs && Stays(recs[id], now) then [id] else []) + Remaining(recs, l[..|l| - 1], now)
  }

  /** The record and the row at an id are the same. */
  ghost predicate SameAt<V>(m: Memory<V>, t: Memory<V>, id: Id) {
    && (id in t.recs <==> id in m.recs) && (id in m.recs ==> t.recs[id] == m.recs[id])
    && (id in t.db <==> id in m.db) && (id in m.db ==> t.db[id] == m.db[id])
  }

  lemma VisitElsewhere<V>(m: Memory<V>, id: Id, now: nat, good: bool, i: Id)
    requires i != id
    ensures SameAt(m, Visit(m, id, now, good), i)
  {
    hide Row;
  }

  lemma VisitSame<V>(m: Memory<V>, t: Memory<V>, id: Id, now: nat, good: bool)
    requires SameAt(m, t, id)
    ensures SameAt(Visit(m, id, now, good), Visit(t, id, now, good), id)
  {
    hide Row;
  }

  lemma {:induction false} VisitAllElsewhere<V>(m: Memory<V>, l: seq<Id>, now: nat, good: Id -> bool, i: Id)
    requires i !in l
    ensures SameAt(m, VisitAll(m, l, now, good), i)
  {
    if l != [] {
      var front, last := l[..|l| - 1], l[|l| - 1];
      VisitAllElsewhere(m, front, now, good, i);
      hide Visit;
      VisitElsewhere(VisitAll(m, front, now, good), last, now, good(last), i);
    }
  }

  /** The fate of every record on the list depends on that record alone. */
  lemma {:induction false} VisitAllOne<V>(m: Memory<V>, l: seq<Id>, now: nat, good: Id -> bool, id: Id)
    requires NoDup(l) && id in l
    ensures SameAt(Visit(m, id, now, good(id)), VisitAll(m, l, now, good), id)
  {
    hide Visit;
    var front, last := l[..|l| - 1], l[|l| - 1];
    var t := VisitAll(m, front, now, good);
    if id == last {
      assert id !in front;
      VisitAllElsewhere(m, front, now, good, id);
      VisitSame(m, t, id, now, good(id));
    } else {
      assert id in front;
      VisitAllOne(m, front, now, good, id);
      VisitElsewhere(t, last, now, good(last), id);
    }
  }

  lemma {:induction false} RemainingIs<V>(recs: map<Id, Rec<V>>, l: seq<Id>, now: nat, id: Id)
    ensures id in Remaining(recs, l, now) <==> id in l && id in recs && Stays(recs[id], now)
  {
    if l != [] {
      var front, last := l[..|l| - 1], l[|l| - 1];
      assert forall i :: i in l <==> i in front || i == last;
      RemainingIs(recs, front, now, id);
      var tail := Remaining(recs, front, now);
      assert id in Remaining(recs, l, now) <==> (id == last && last in recs && Stays(recs[last], now)) || id in tail;
    }
  }

  /** While a flush runs: the rest of the old list and the list it builds are two disjoint chains, and
      exactly the other records have no link. */
  ghost predicate Split(ids: set<Id>, next: map<Id, Link>, head: Link, rest: seq<Id>, nosaved: Link, kept: seq<Id>) {
    && next.Keys == ids
    && Chain(next, head, rest) && Chain(next, nosaved, kept)
    && (forall id :: id in rest ==> id !in kept)
    && (forall id :: id in next ==> (next[id] == Off <==> id !in rest && id !in kept))
  }

  lemma SplitPop(ids: set<Id>, next: map<Id, Link>, head: Link, rest: seq<Id>, nosaved: Link, kept: seq<Id>)
    requires Split(ids, next, head, rest, nosaved, kept) && rest != []
    ensures var id, tail := rest[0], rest[1..];
            && head == To(id) && id in next && id !in tail && id !in kept
            && Split(ids, next[id := Off], next[id], tail, nosaved, kept)
  {
    var id, tail := rest[0], rest[1..];
    ChainPop(next, head, rest);
    assert forall i :: i in rest <==> i == id || i in tail;
    ChainFrame(next, next[id := Off], next[id], tail);
    ChainFrame(next, next[id := Off], nosaved, kept);
  }

  lemma SplitFree(ids: set<Id>, next: map<Id, Link>, head: Link, rest: seq<Id>, nosaved: Link, kept: seq<Id>, id: Id)
    requires Split(ids, next, head, rest, nosaved, kept) && id !in rest && id !in kept
    ensures Split(ids - {id}, next - {id}, head, rest, nosaved, kept)
  {
    ChainFrame(next, next - {id}, head, rest);
    ChainFrame(next, next - {id}, nosaved, kept);
  }

  lemma SplitKeep(ids: set<Id>, next: map<Id, Link>, head: Link, rest: seq<Id>, nosaved: Link, kept: seq<Id>, id: Id)
    requires Split(ids, next, head, rest, nosaved, kept) && id in ids && id !in rest && id !in kept
    ensures Split(ids, next[id := nosaved], head, rest, To(id), [id] + kept)
  {
    ChainPush(next, nosaved, kept, id);
    ChainFrame(next, next[id := nosaved], head, rest);
    assert nosaved != Off;
    forall i ensures i in [id] + kept <==> i == id || i in kept {
    }
  }

  /** Dirty records on neither chain are strays. */
  ghost predicate StraySplit<V>(recs: map<Id, Rec<V>>, rest: seq<Id>, kept: seq<Id>, stray: set<Id>) {
    forall id :: id in stray <==> id in recs && recs[id].dirty != {} && id !in rest && id !in kept
  }

  lemma StrayFreed<V>(recs: map<Id, Rec<V>>, id: Id, rest: seq<Id>, kept: seq<Id>, stray: set<Id>)
    requires StraySplit(recs, [id] + rest, kept, stray)
    ensures StraySplit(recs - {id}, rest, kept, stray) && id !in stray
  {
    assert forall i :: i in [id] + rest <==> i == id || i in rest;
  }

  lemma StrayVisited<V>(recs: map<Id, Rec<V>>, id: Id, rest: seq<Id>, kept: seq<Id>, stray: set<Id>, r: Rec<V>)
    requires StraySplit(recs, [id] + rest, kept, stray) && id !in rest && id !in kept
    ensures StraySplit(recs[id := r], rest, kept, if r.dirty != {} then stray + {id} else stray)
  {
    assert forall i :: i in [id] + rest <==> i == id || i in rest;
  }

  lemma StrayKept<V>(recs: map<Id, Rec<V>>, id: Id, rest: seq<Id>, kept: seq<Id>, stray: set<Id>)
    requires StraySplit(recs, [id] + rest, kept, stray)
    ensures StraySplit(recs, rest, [id] + kept, stray)
  {
    assert forall i :: i in [id] + rest <==> i == id || i in rest;
    assert forall i :: i in [id] + kept <==> i == id || i in kept;
  }

  lemma DataFree<V>(recs: map<Id, Rec<V>>, db: map<Id, map<Field, V>>, clock: nat, id: Id)
    requires DataOk(recs, db, clock)
    ensures DataOk(recs - {id}, db, clock)
  {
  }

  lemma StartSplit<V>(recs: map<Id, Rec<V>>, next: map<Id, Link>, head: Link, list: seq<Id>, stray: set<Id>)
    requires ListOk(recs.Keys, next, head, list) && StrayOk(recs, list, stray)
    ensures Split(recs.Keys, next, head, list, End, []) && StraySplit(recs, list, [], stray)
  {
  }

  lemma EndSplit<V>(recs: map<Id, Rec<V>>, next: map<Id, Link>, nosaved: Link, kept: seq<Id>, rest: seq<Id>, stray: set<Id>)
    requires rest == [] && Split(recs.Keys, next, End, rest, nosaved, kept) && StraySplit(recs, rest, kept, stray)
    ensures ListOk(recs.Keys, next, nosaved, kept) && StrayOk(recs, kept, stray)
  {
  }

  lemma SplitHead(ids: set<Id>, next: map<Id, Link>, head: Link, rest: seq<Id>, nosaved: Link, kept: seq<Id>)
    requires Split(ids, next, head, rest, nosaved, kept)
    ensures head == LinkAt(rest, 0) && forall i :: 0 <= i < |rest| ==> rest[i] in ids
  {
    assert forall i :: 0 <= i < |rest| ==> rest[i] in next;
  }

  /** One more record of the list. */
  lemma Snoc<V>(m: Memory<V>, l: seq<Id>, i: nat, now: nat, good: Id -> bool)
    requires NoDup(l) && i < |l|
    ensures VisitAll(m, l[..i + 1], now, good) == Visit(VisitAll(m, l[..i], now, good), l[i], now, good(l[i]))
    ensures SameAt(m, VisitAll(m, l[..i], now, good), l[i])
    ensures Remaining(m.recs, l[..i + 1], now) ==
            (if l[i] in m.recs && Stays(m.recs[l[i]], now) then [l[i]] else []) + Remaining(m.recs, l[..i], now)
  {
    hide Visit;
    assert l[..i + 1][..i] == l[..i];
    assert l[i] !in l[..i];
    VisitAllElsewhere(m, l[..i], now, good, l[i]);
  }

  lemma AllStay<V>(m: Memory<V>, l: seq<Id>, now: nat, good: Id -> bool)
    requires NoDup(l)
    ensures forall id :: id in Remaining(m.recs, l, now) ==>
              id in VisitAll(m, l, now, good).recs && Stays(VisitAll(m, l, now, good).recs[id], now)
  {
    forall id | id in Remaining(m.recs, l, now)
      ensures id in VisitAll(m, l, now, good).recs && Stays(VisitAll(m, l, now, good).recs[id], now)
    {
      RemainingIs(m.recs, l, now, id);
      VisitAllOne(m, l, now, good, id);
    }
  }

  /** A record that is dirty after a flush is as it was before. */
  lemma FlushStamps<V>(m: Memory<V>, l: seq<Id>, now: nat, good: Id -> bool, since: map<Id, nat>, last: map<Id, nat>)
    requires NoDup(l) && StampsOk(m.recs, since, last)
    ensures StampsOk(VisitAll(m, l, now, good).recs, since, last)
  {
    var t := VisitAll(m, l, now, good);
    hide VisitAll;
    forall id | id in t.recs && t.recs[id].dirty != {} ensures id in m.recs && t.recs[id] == m.recs[id] {
      if id in l {
        VisitAllOne(m, l, now, good, id);
      } else {
        VisitAllElsewhere(m, l, now, good, id);
      }
    }
  }

  /** A live dirty record of the list stays there exactly while it has been dirty for less than 30 seconds and has
      changed less than five seconds ago. */
  lemma StaysExactly<V>(recs: map<Id, Rec<V>>, l: seq<Id>, now: nat, since: map<Id, nat>, last: map<Id, nat>, id: Id)
    requires StampsOk(recs, since, last) && id in l && id in recs && recs[id].flag == Live && recs[id].dirty != {}
    ensures id in Remaining(recs, l, now) <==> now - since[id] < 30 && now - last[id] < 5
  {
    RemainingIs(recs, l, now, id);
  }

  /** A due or released record whose save succeeds is in the database after the flush, clean if it was
      due and gone if it was released. */
  lemma FlushSaves<V>(m: Memory<V>, l: seq<Id>, now: nat, good: Id -> bool, clock: nat, id: Id)
    requires NoDup(l) && id in l && id in m.recs && DataOk(m.recs, m.db, clock) && good(id)
    requires var r := m.recs[id]; r.flag == Released || (r.flag == Live && Due(r, now))
    ensures var t, r := VisitAll(m, l, now, good), m.recs[id];
            && InDatabase(r, t.db, id)
            && (if r.flag == Released then id !in t.recs else id in t.recs && t.recs[id] == Saved(r))
  {
    hide VisitAll;
    VisitAllOne(m, l, now, good, id);
    RowAgrees(m.recs[id], m.db[id]);
  }

  /** A deleted record is freed without touching the table; a record that is off the list, or on it but not due, is
      left alone with its row. */
  lemma FlushLeaves<V>(m: Memory<V>, l: seq<Id>, now: nat, good: Id -> bool, id: Id)
    requires NoDup(l)
    ensures var t := VisitAll(m, l, now, good);
            && (id in l && id in m.recs && m.recs[id].flag == Deleted ==>
                  id !in t.recs && (id in t.db <==> id in m.db) && (id in m.db ==> t.db[id] == m.db[id]))
            && (id !in l || (id in m.recs && m.recs[id].flag == Live && now - m.recs[id].dirtyTime < 30 && now - m.recs[id].changeTime < 5)
                ==> SameAt(m, t, id))
  {
    hide VisitAll;
    if id in l {
      VisitAllOne(m, l, now, good, id);
    } else {
      VisitAllElsewhere(m, l, now, good, id);
    }
  }

  /** A released record whose save fails is freed all the same: what was dirty is lost. */
  lemma FailedReleaseLoses<V>(m: Memory<V>, l: seq<Id>, now: nat, good: Id -> bool, id: Id)
    requires NoDup(l) && id in l && id in m.recs && m.recs[id].flag == Released && m.recs[id].dirty != {} && !good(id)
    ensures var t := VisitAll(m, l, now, good);
            id !in t.recs && (id in t.db <==> id in m.db) && (id in m.db ==> t.db[id] == m.db[id])
  {
    hide VisitAll;
    VisitAllOne(m, l, now, good, id);
  }

  /** After a flush a record is dirty and off the list exactly if it was so before, or if it was due and
      its save failed. */
  lemma FlushStrays<V>(m: Memory<V>, l: seq<Id>, now: nat, good: Id -> bool, id: Id)
    requires NoDup(l)
    ensures var t := VisitAll(m, l, now, good);
            (id in t.recs && t.recs[id].dirty != {} && id !in Remaining(m.recs, l, now)) <==>
            (id in m.recs && m.recs[id].dirty != {}
             && (id !in l || (m.recs[id].flag == Live && Due(m.recs[id], now) && !good(id))))
  {
    hide VisitAll, Remaining;
    RemainingIs(m.recs, l, now, id);
    if id in l {
      VisitAllOne(m, l, now, good, id);
    } else {
      VisitAllElsewhere(m, l, now, good, id);
    }
  }

  class Table<V(==)> {
    var recs: map<Id, Rec<V>>
    var next: map<Id, Link>
    var head: Link                   // the update list
    var db: map<Id, map<Field, V>>
    ghost var list: seq<Id>          // what the update list holds
    ghost var clock: nat             // the latest time any call has seen
    ghost var stray: set<Id>         // dirty records whose save, in a flush, failed
    ghost var since: map<Id, nat>    // when a record last became dirty
    ghost var last: map<Id, nat>     // when it last changed

    ghost predicate Valid()
      reads this
    {
      && DataOk(recs, db, clock) && ListOk(recs.Keys, next, head, list) && StrayOk(recs, list, stray)
      && StampsOk(recs, since, last)
    }

    constructor ()
      ensures Valid() && recs == map[] && db == map[] && list == [] && stray == {}
    {
      recs, next, head, db := map[], map[], End, map[];
      list, clock, stray, since, last := [], 0, {}, map[], map[];
    }

    /** add_to_update_list: a record is on the list at most once. */
    method AddToUpdateList(id: Id)
      requires ListOk(recs.Keys, next, head, list) && id in recs
      modifies this`next, this`head, this`list
      ensures ListOk(recs.Keys, next, head, list)
      ensures list == Listed(old(list), id)
    {
      if next[id] == Off {
        ListPush(recs.Keys, next, head, list, id);
        next := next[id := head];
        head := To(id);
        list := [id] + list;
      }
    }

    /** new: the row is inserted first; only then does the record count as clean. */
    method New(id: Id, fields: map<Field, V>, good: bool) returns (status: int)
      requires Valid() && id !in recs
      modifies this
      ensures Valid() && list == old(list) && clock == old(clock) && stray == old(stray) && since == old(since) && last == old(last)
      ensures status == (if good then 0 else -1)
      ensures recs == if good then old(recs)[id := Rec(fields, {}, 0, 0, Live)] else old(recs)
      ensures db == if good then old(db)[id := fields] else old(db)
    {
      hide DataOk, ListOk, StrayOk, StampsOk;
      if !good {
        return -1;
      }
      var r := Rec(fields, {}, 0, 0, Live);
      DataPut(recs, db, clock, id, r, db[id := fields], clock);
      ListNew(recs.Keys, next, head, list, id);
      StrayNew(recs, list, stray, id, r);
      StampsPut(recs, since, last, id, r);
      assert recs[id := r].Keys == recs.Keys + {id};
      recs := recs[id := r];
      next := next[id := Off];
      db := db[id := fields];
      status := 0;
    }

    /** update_<field>: nothing for an equal value; otherwise the field and its bit change in memory, the database does
        not, and the record is listed and stamped. */
    method Update(id: Id, f: Field, v: V, now: nat)
      requires Valid() && id in recs && f in recs[id].fields && now > 0 && now >= clock
      modifies this`recs, this`next, this`head, this`list, this`clock, this`stray, this`since, this`last
      ensures Valid() && clock == now
      ensures old(recs)[id].fields[f] == v ==>
        recs == old(recs) && list == old(list) && stray == old(stray) && since == old(since) && last == old(last)
      ensures old(recs)[id].fields[f] != v ==>
        && OnlyRecord(old(recs), recs, id) && OneFieldSet(old(recs)[id], recs[id], f, v)
        && list == Listed(old(list), id) && stray == old(stray) - {id}
        && StampsSet(old(recs)[id], old(since), old(last), since, last, id, now)
    {
      hide DataOk, ListOk, StrayOk, StampsOk, Listed, Changed, OnlyRecord, OneFieldSet, StampsSet;
      DataLater(recs, db, clock, now);
      clock := now;
      if recs[id].fields[f] != v {
        ghost var since', last' := if recs[id].dirty == {} then since[id := now] else since, last[id := now];
        ChangeKeeps(recs, db, list, stray, since, last, since', last', id, f, v, now);
        recs := recs[id := Changed(recs[id], f, v, now)];
        stray, since, last := stray - {id}, since', last';
        AddToUpdateList(id);
      }
    }

    /** The update statement with the dirty fields of a record. A failure changes nothing. */
    method SaveRecord(id: Id, good: bool) returns (status: int)
      requires DataOk(recs, db, clock) && id in recs
      modifies this`recs, this`db
      ensures DataOk(recs, db, clock) && recs.Keys == old(recs).Keys
      ensures status == (if old(recs)[id].dirty == {} || good then 0 else -1)
      ensures recs == if status == 0 then old(recs)[id := Saved(old(recs)[id])] else old(recs)
      ensures db == if status == 0 then Write(old(db), id, old(recs)[id]) else old(db)
    {
      hide DataOk, Row, Saved, Write;
      var r := Saved(recs[id]);
      DataGet(recs, db, clock, id);
      SavedOk(id, recs[id], db, clock);
      SavedIsClean(id, recs[id], db);
      DataPut(recs, db, clock, id, r, Write(db, id, recs[id]), clock);
      if recs[id].dirty == {} {
        assert recs == recs[id := r];
        return 0;
      }
      if !good {
        return -1;
      }
      db := Write(db, id, recs[id]);
      recs := recs[id := r];
      status := 0;
    }

    /** save */
    method Save(id: Id, good: bool) returns (status: int)
      requires Valid() && id in recs
      modifies this`recs, this`db, this`stray
      ensures Valid()
      ensures status == (if old(recs)[id].dirty == {} || good then 0 else -1)
      ensures recs == if status == 0 then old(recs)[id := Saved(old(recs)[id])] else old(recs)
      ensures db == if status == 0 then Write(old(db), id, old(recs)[id]) else old(db)
      ensures stray == if status == 0 then old(stray) - {id} else old(stray)
      ensures status == 0 ==> recs[id].dirty == {} && recs[id].fields == old(recs)[id].fields && recs[id].flag == old(recs)[id].flag
      ensures status == 0 && recs[id].flag != Deleted ==> InDatabase(recs[id], db, id)
      ensures OnlyColumns(old(db), db, id, old(recs)[id].dirty)
    {
      hide DataOk, ListOk, StrayOk, Write, StampsOk, InDatabase, OnlyColumns, RecOk;
      DataGet(recs, db, clock, id);
      SavedColumns(id, recs[id], db, clock);
      SavedIsClean(id, recs[id], db);
      StraySaved(recs, list, stray, id, Saved(recs[id]));
      StampsPut(recs, since, last, id, Saved(recs[id]));
      status := SaveRecord(id, good);
      if status == 0 {
        stray := stray - {id};
      }
    }

    /** release: the record stays until the next flush has saved and freed it. */
    method Release(id: Id)
      requires Valid() && id in recs && recs[id].flag != Deleted
      modifies this
      ensures Valid() && db == old(db) && clock == old(clock) && since == old(since) && last == old(last)
      ensures recs == old(recs)[id := old(recs)[id].(flag := Released)]
      ensures list == Listed(old(list), id)
      ensures stray == old(stray) - {id}
    {
      hide DataOk, ListOk, StrayOk, Listed, CleanAgrees, StampsOk;
      var r := recs[id].(flag := Released);
      StampsPut(recs, since, last, id, r);
      DataGet(recs, db, clock, id);
      SameFields(recs[id], r, db[id]);
      DataPut(recs, db, clock, id, r, db, clock);
      StrayListed(recs, list, stray, id, r);
      assert recs[id := r].Keys == recs.Keys;
      recs := recs[id := r];
      AddToUpdateList(id);
      stray := stray - {id};
    }

    /** delete: the row goes at once, the record at the next flush. */
    method Delete(id: Id, good: bool) returns (status: int)
      requires Valid() && id in recs
      modifies this
      ensures Valid() && clock == old(clock) && since == old(since) && last == old(last)
      ensures status == (if good then 0 else -1)
      ensures recs == if good then old(recs)[id := Saved(old(recs)[id]).(flag := Deleted)] else old(recs)
      ensures db == if good then old(db) - {id} else old(db)
      ensures list == if good then Listed(old(list), id) else old(list)
      ensures stray == if good then old(stray) - {id} else old(stray)
    {
      hide DataOk, ListOk, StrayOk, Listed, CleanAgrees, StampsOk;
      if !good {
        return -1;
      }
      var r := Saved(recs[id]).(flag := Deleted);
      StampsPut(recs, since, last, id, r);
      DataPut(recs, db, clock, id, r, db - {id}, clock);
      StrayListed(recs, list, stray, id, r);
      assert recs[id := r].Keys == recs.Keys;
      db := db - {id};
      recs := recs[id := r];
      AddToUpdateList(id);
      stray := stray - {id};
      status := 0;
    }

    /** Handle the record just taken off the list: save it, free it, or say that it stays. */
    method Dispose(id: Id, now: nat, good: bool, ghost rest: seq<Id>, nosaved: Link, ghost kept: seq<Id>) returns (stays: bool)
      requires id in recs && id !in rest && id !in kept && clock == now
      requires DataOk(recs, db, now) && Split(recs.Keys, next, head, rest, nosaved, kept)
      requires StraySplit(recs, [id] + rest, kept, stray)
      modifies this`recs, this`db, this`next, this`stray
      ensures DataOk(recs, db, now) && Split(recs.Keys, next, head, rest, nosaved, kept)
      ensures Memory(recs, db) == Visit(Memory(old(recs), old(db)), id, now, good)
      ensures stays == Stays(old(recs)[id], now) && (stays ==> recs == old(recs))
      ensures StraySplit(recs, rest, if stays then [id] + kept else kept, stray)
      ensures stray == old(stray) + (if !good && old(recs)[id].flag == Live && old(recs)[id].dirty != {} && !stays then {id} else {})
    {
      hide DataOk, Split, StraySplit, Write;
      var r := recs[id];
      StrayFreed(recs, id, rest, kept, stray);
      stays := false;
      if r.flag != Live {
        SplitFree(recs.Keys, next, head, rest, nosaved, kept, id);
        if r.flag == Released {
          var _ := SaveRecord(id, good);
        }
        DataFree(recs, db, now, id);
        assert (recs - {id}).Keys == recs.Keys - {id} && recs - {id} == old(recs) - {id};
        recs := recs - {id};
        next := next - {id};
      } else if Due(r, now) {
        StrayVisited(recs, id, rest, kept, stray, r);
        StrayVisited(recs, id, rest, kept, stray, Saved(r));
        var status := SaveRecord(id, good);
        if status != 0 {
          assert recs == recs[id := r];
          stray := stray + {id};
        }
      } else {
        StrayKept(recs, id, rest, kept, stray);
        stays := true;
      }
    }

    /** The state of a flush after i records of the list. */
    ghost predicate Flushing(l: seq<Id>, m: Memory<V>, i: nat, now: nat, good: Id -> bool, nosaved: Link, kept: seq<Id>)
      reads this
    {
      && NoDup(l) && i <= |l| && clock == now && list == l
      && DataOk(recs, db, now) && Split(recs.Keys, next, head, l[i..], nosaved, kept)
      && StraySplit(recs, l[i..], kept, stray)
      && Memory(recs, db) == VisitAll(m, l[..i], now, good)
      && kept == Remaining(m.recs, l[..i], now)
    }

    /** One turn of the loop. */
    method FlushOne(now: nat, good: Id -> bool, nosaved: Link, ghost l: seq<Id>, ghost m: Memory<V>, ghost i: nat, ghost kept: seq<Id>)
      returns (nosaved': Link, ghost kept': seq<Id>)
      requires Flushing(l, m, i, now, good, nosaved, kept) && i < |l|
      modifies this`recs, this`db, this`next, this`head, this`stray
      ensures Flushing(l, m, i + 1, now, good, nosaved', kept')
      ensures good(l[i]) ==> stray == old(stray)
    {
      hide DataOk, Split, StraySplit, Visit, VisitAll, Remaining;
      SplitHead(recs.Keys, next, head, l[i..], nosaved, kept);
      SplitPop(recs.Keys, next, head, l[i..], nosaved, kept);
      Snoc(m, l, i, now, good);
      var id := head.id;
      assert l[i..][1..] == l[i + 1..] && l[i..] == [id] + l[i + 1..];
      hide NoDup;
      head := next[id];
      next := next[id := Off];
      var stays := Dispose(id, now, good(id), l[i + 1..], nosaved, kept);
      nosaved', kept' := nosaved, kept;
      if stays {
        SplitKeep(recs.Keys, next, head, l[i + 1..], nosaved, kept, id);
        next := next[id := nosaved];
        nosaved', kept' := To(id), [id] + kept;
      }
    }

    /** flush: walk the list once, build the list of those that stay, and make it the update list.
        Afterwards every record on the list has been dirty for less than 30 seconds and has changed
        less than five seconds ago; a dirty record leaves the list only when its save fails. */
    method Flush(now: nat, good: Id -> bool)
      requires Valid() && now >= clock
      modifies this
      ensures Valid() && clock == now
      ensures Memory(recs, db) == VisitAll(Memory(old(recs), old(db)), old(list), now, good)
      ensures list == Remaining(old(recs), old(list), now)
      ensures forall id :: id in list ==> id in recs && recs[id].flag == Live
      ensures since == old(since) && last == old(last)
      ensures forall id :: id in old(list) && id in old(recs) && old(recs)[id].flag == Live && old(recs)[id].dirty != {} ==>
                (id in list <==> now - since[id] < 30 && now - last[id] < 5)
      ensures (forall id :: id in old(list) ==> good(id)) ==> stray == old(stray)
    {
      ghost var l, m := list, Memory(recs, db);
      assert NoDup(l);
      FlushStamps(m, l, now, good, since, last);
      forall id | id in l && id in recs && recs[id].flag == Live && recs[id].dirty != {}
        ensures id in Remaining(recs, l, now) <==> now - since[id] < 30 && now - last[id] < 5
      {
        StaysExactly(recs, l, now, since, last, id);
      }
      hide DataOk, VisitAll, Remaining, ListOk, StrayOk, StampsOk;
      FlushList(now, good);
    }

    /** The loop of flush. */
    method FlushList(now: nat, good: Id -> bool)
      requires Valid() && now >= clock
      modifies this`recs, this`next, this`head, this`db, this`list, this`clock, this`stray
      ensures DataOk(recs, db, now) && ListOk(recs.Keys, next, head, list) && StrayOk(recs, list, stray) && clock == now
      ensures Memory(recs, db) == VisitAll(Memory(old(recs), old(db)), old(list), now, good)
      ensures list == Remaining(old(recs), old(list), now)
      ensures forall id :: id in list ==> id in recs && recs[id].flag == Live
      ensures (forall id :: id in old(list) ==> good(id)) ==> stray == old(stray)
    {
      hide DataOk, Split, StraySplit, Visit, VisitAll, Remaining, ListOk, StrayOk, StampsOk;
      ghost var l, m, i := list, Memory(recs, db), 0;
      var nosaved := End;
      ghost var kept: seq<Id> := [];
      StartFlush(now, good);
      clock := now;
      while head != End
        invariant Flushing(l, m, i, now, good, nosaved, kept)
        invariant (forall id :: id in l ==> good(id)) ==> stray == old(stray)
        decreases |l| - i
      {
        SplitHead(recs.Keys, next, head, l[i..], nosaved, kept);
        nosaved, kept := FlushOne(now, good, nosaved, l, m, i, kept);
        i := i + 1;
      }
      SplitHead(recs.Keys, next, head, l[i..], nosaved, kept);
      assert l[..i] == l;
      head, list := nosaved, kept;
      EndSplit(recs, next, nosaved, kept, l[i..], stray);
      AllStay(m, l, now, good);
    }

    lemma StartFlush(now: nat, good: Id -> bool)
      requires Valid() && now >= clock
      ensures NoDup(list) && DataOk(recs, db, now) && Split(recs.Keys, next, head, list[0..], End, [])
      ensures StraySplit(recs, list[0..], [], stray)
      ensures Memory(recs, db) == VisitAll(Memory(recs, db), list[..0], now, good)
      ensures [] == Remaining(recs, list[..0], now)
    {
      DataLater(recs, db, clock, now);
      StartSplit(recs, next, head, list, stray);
      assert list[0..] == list && list[..0] == [];
    }
  }
}
