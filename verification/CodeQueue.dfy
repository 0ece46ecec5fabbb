/**
  The shared-memory byte ring of framework/codequeue.c with one producer and one consumer
  that interleave freely: each index load, each byte copied and each index store is a step
  of its own, and the bytes of one memmove may be copied in any order.
 */
module CodeQueue {
  import opened Bytes
  import opened Modular

  type Message = m: seq<byte> | |m| < 0x1_0000_0000

  const HEADER := 4   // sizeof(uint32_t)
  const RESERVE := 4  // AG_CODEQUEEU_RESERVE

  // ---------- index arithmetic of the source ----------

  /** CQSize */
  function Capacity(size: nat): nat {
    if size >= RESERVE then size - RESERVE else 0
  }

  /** CQLength */
  function Length(size: nat, begin: nat, end: nat): int {
    if end >= begin then end - begin else size + end - begin
  }

  /** Where CQRead and CQWrite, started at pos, keep the i-th of len bytes. */
  function Slot(size: nat, pos: nat, len: nat, i: nat): int {
    if size - pos > len then pos + i
    else if i < size - pos then pos + i
    else i - (size - pos)
  }

  /** The index that CQRead and CQWrite return. */
  function Advance(size: nat, pos: nat, len: nat): nat
    requires size > 0
  {
    (pos + len) % size
  }

  /** The slot of the k-th byte of a frame written at end: header first, then the body. */
  function FrameSlot(size: nat, end: nat, len: nat, k: nat): int
    requires size > 0
  {
    if k < HEADER then Slot(size, end, HEADER, k) else Slot(size, Advance(size, end, HEADER), len, k - HEADER)
  }

  // ---------- the byte stream that the ring carries ----------

  function Frame(m: Message): (f: seq<byte>)
    ensures |f| == HEADER + |m|
  {
    LeBytes(|m|, HEADER) + m
  }

  function Stream(ms: seq<Message>): seq<byte> {
    if ms == [] then [] else Stream(ms[..|ms| - 1]) + Frame(ms[|ms| - 1])
  }

  lemma StreamSnoc(ms: seq<Message>, m: Message)
    ensures Stream(ms + [m]) == Stream(ms) + Frame(m)
  {
    assert (ms + [m])[..|ms|] == ms;
  }

  /** A prefix of the messages is a prefix of the bytes, and the next frame follows it. */
  lemma {:induction false} StreamSplit(ms: seq<Message>, n: nat)
    requires n <= |ms|
    ensures |Stream(ms[..n])| <= |Stream(ms)|
    ensures Stream(ms)[..|Stream(ms[..n])|] == Stream(ms[..n])
    ensures n < |ms| ==> |Stream(ms[..n])| + |Frame(ms[n])| <= |Stream(ms)|
                         && Stream(ms)[|Stream(ms[..n])|..][..|Frame(ms[n])|] == Frame(ms[n])
    decreases |ms|
  {
    if n == |ms| {
      assert ms[..n] == ms;
    } else {
      var front := ms[..|ms| - 1];
      StreamSplit(front, n);
      assert front[..n] == ms[..n];
      if n == |ms| - 1 {
        assert Stream(ms) == Stream(ms[..n]) + Frame(ms[n]);
      } else {
        assert front[n] == ms[n];
        var a, f := |Stream(ms[..n])|, |Frame(ms[n])|;
        assert Stream(ms)[a..][..f] == Stream(ms)[a..a + f] == Stream(front)[a..a + f] == Stream(front)[a..][..f];
      }
    }
  }

  // ---------- ring indices ----------

  /** The ring index d steps after b. */
  function Idx(size: nat, b: nat, d: int): int {
    if b + d < size then b + d else b + d - size
  }

  lemma LengthIsDistance(size: nat, b: nat, d: nat)
    requires b < size && d < size
    ensures Length(size, b, Idx(size, b, d)) == d
  {
  }

  lemma AdvanceIsIdx(size: nat, b: nat, d: nat)
    requires b < size && d <= size
    ensures Advance(size, b, d) == Idx(size, b, d)
  {
    ModWrap(b + d, size);
  }

  /** Both branches of CQRead and CQWrite walk the ring one slot at a time, across the header
      and on into the body. */
  lemma FrameSlotIsIdx(size: nat, b: nat, len: nat, k: nat)
    requires b < size && k < HEADER + len < size
    ensures FrameSlot(size, b, len, k) == Idx(size, b, k)
  {
    AdvanceIsIdx(size, b, HEADER);
  }

  // ---------- the protocol ----------

  /** Where the producer stands inside agCQ_push. seen records how many messages had been
      popped when begin was loaded; no step reads it. */
  datatype Producer =
    | Ready
    | PushLoaded(msg: Message, begin: nat, seen: nat)
    | Writing(msg: Message, at: nat, done: set<nat>)

  /** Where the consumer stands inside agCQ_pop. seen records how many messages had been
      pushed when end was loaded; no step reads it. */
  datatype Consumer =
    | Waiting
    | PopLoaded(cap: nat, from: nat)
    | ReadingHeader(cap: nat, from: nat, upto: nat, seen: nat, got: map<nat, byte>)
    | ReadingBody(from: nat, rlen: nat, got: map<nat, byte>)

  /** pushed and popped are the histories of completed calls; lost says that one of the two
      error branches of agCQ_pop has thrown data away. */
  datatype State = State(
    size: nat, ring: seq<byte>, begin: nat, end: nat,
    p: Producer, c: Consumer,
    pushed: seq<Message>, popped: seq<Message>, lost: bool)

  datatype Action =
    | PushLoadBegin(msg: Message) | PushLoadEnd | PushCopy(k: nat) | PushStoreEnd
    | PopLoadBegin(cap: nat) | PopLoadEnd | PopCopyHeader(k: nat) | PopHeaderDone | PopCopyBody(k: nat) | PopStoreBegin

  ghost predicate Init(s: State) {
    && s.size >= RESERVE && |s.ring| == s.size && s.begin == s.end == 0
    && s.p == Ready && s.c == Waiting && s.pushed == s.popped == [] && !s.lost
  }

  ghost predicate Complete(got: map<nat, byte>, n: nat) {
    forall k: nat :: k < n ==> k in got
  }

  function Collect(got: map<nat, byte>, n: nat): (s: seq<byte>)
    requires Complete(got, n)
    ensures |s| == n && forall k :: 0 <= k < n ==> s[k] == got[k]
  {
    seq(n, k requires 0 <= k < n => got[k])
  }

  ghost predicate Enabled(s: State, a: Action) {
    && s.size > 0 && |s.ring| == s.size
    && match a
       case PushLoadBegin(_) => s.p.Ready?
       case PushLoadEnd => s.p.PushLoaded?
       case PushCopy(k) => s.p.Writing? && k < HEADER + |s.p.msg| && k !in s.p.done
                           && 0 <= FrameSlot(s.size, s.p.at, |s.p.msg|, k) < s.size
       case PushStoreEnd => s.p.Writing? && forall k: nat :: k < HEADER + |s.p.msg| ==> k in s.p.done
       case PopLoadBegin(_) => s.c.Waiting?
       case PopLoadEnd => s.c.PopLoaded?
       case PopCopyHeader(k) => s.c.ReadingHeader? && k < HEADER && k !in s.c.got
                                && 0 <= Slot(s.size, s.c.from, HEADER, k) < s.size
       case PopHeaderDone => s.c.ReadingHeader? && Complete(s.c.got, HEADER)
       case PopCopyBody(k) => s.c.ReadingBody? && k < s.c.rlen && k !in s.c.got
                              && 0 <= Slot(s.size, s.c.from, s.c.rlen, k) < s.size
       case PopStoreBegin => s.c.ReadingBody? && s.c.rlen < 0x1_0000_0000 && Complete(s.c.got, s.c.rlen)
  }

  ghost function Step(s: State, a: Action): State
    requires Enabled(s, a)
  {
    match a
    case PushLoadBegin(msg) => s.(p := PushLoaded(msg, s.begin, |s.popped|))
    case PushLoadEnd =>
      var used := Length(s.size, s.p.begin, s.end);
      if used + |s.p.msg| + HEADER > Capacity(s.size) then s.(p := Ready)
      else s.(p := Writing(s.p.msg, s.end, {}))
    case PushCopy(k) =>
      s.(ring := s.ring[FrameSlot(s.size, s.p.at, |s.p.msg|, k) := Frame(s.p.msg)[k]],
         p := s.p.(done := s.p.done + {k}))
    case PushStoreEnd =>
      var e := Advance(s.size, s.p.at, HEADER);
      s.(end := if |s.p.msg| > 0 then Advance(s.size, e, |s.p.msg|) else e,
         p := Ready, pushed := s.pushed + [s.p.msg])
    case PopLoadBegin(cap) => s.(c := PopLoaded(cap, s.begin))
    case PopLoadEnd =>
      if s.c.from == s.end then s.(c := Waiting)
      else if Length(s.size, s.c.from, s.end) < HEADER then s.(begin := s.end, c := Waiting, lost := true)
      else s.(c := ReadingHeader(s.c.cap, s.c.from, s.end, |s.pushed|, map[]))
    case PopCopyHeader(k) => 
      s.(c := ReadingHeader(s.c.cap, s.c.from, s.c.upto, s.c.seen, s.c.got[k := s.ring[Slot(s.size, s.c.from, HEADER, k)]]))
    case PopHeaderDone =>
      var rlen := FromLeBytes(Collect(s.c.got, HEADER));
      if s.c.cap == 0 || rlen > s.c.cap then s.(c := Waiting)
      else if rlen > 0 && Length(s.size, s.c.from, s.c.upto) - HEADER < rlen then
        s.(begin := s.c.upto, c := Waiting, lost := true)
      else s.(c := ReadingBody(Advance(s.size, s.c.from, HEADER), rlen, map[]))
    case PopCopyBody(k) => 
      s.(c := ReadingBody(s.c.from, s.c.rlen, s.c.got[k := s.ring[Slot(s.size, s.c.from, s.c.rlen, k)]]))
    case PopStoreBegin =>
      s.(begin := if s.c.rlen > 0 then Advance(s.size, s.c.from, s.c.rlen) else s.c.from,
         c := Waiting, popped := s.popped + [Collect(s.c.got, s.c.rlen)])
  }

  // ---------- the invariant ----------

  ghost function Tail(s: State): nat { |Stream(s.popped)| }
  ghost function Head(s: State): nat { |Stream(s.pushed)| }

  ghost predicate RingInv(s: State) {
    && |s.ring| == s.size && s.begin < s.size && !s.lost
    && |s.popped| <= |s.pushed| && s.pushed[..|s.popped|] == s.popped
    && Tail(s) <= Head(s) <= Tail(s) + s.size - RESERVE
    && s.end == Idx(s.size, s.begin, Head(s) - Tail(s))
    && forall k :: Tail(s) <= k < Head(s) ==> s.ring[Idx(s.size, s.begin, k - Tail(s))] == Stream(s.pushed)[k]
  }

  ghost predicate ProducerInv(s: State)
    requires RingInv(s)
  {
    match s.p
    case Ready => true
    case PushLoaded(_, begin, seen) =>
      && seen <= |s.popped| && begin < s.size
      && var was := |Stream(s.popped[..seen])|;
         was <= Tail(s) && Head(s) <= was + s.size - RESERVE && s.begin == Idx(s.size, begin, Tail(s) - was)
    case Writing(msg, at, done) =>
      && at == s.end
      && Head(s) + HEADER + |msg| <= Tail(s) + s.size - RESERVE
      && forall k :: k in done ==> k < HEADER + |msg| && s.ring[Idx(s.size, s.end, k)] == Frame(msg)[k]
  }

  ghost predicate ConsumerInv(s: State)
    requires RingInv(s)
  {
    match s.c
    case Waiting => true
    case PopLoaded(_, from) => from == s.begin
    case ReadingHeader(_, from, upto, seen, got) =>
      && from == s.begin
      && |s.popped| < seen <= |s.pushed|
      && upto == Idx(s.size, s.begin, |Stream(s.pushed[..seen])| - Tail(s))
      && forall k :: k in got ==> k < HEADER && got[k] == Frame(s.pushed[|s.popped|])[k]
    case ReadingBody(from, rlen, got) =>
      && |s.popped| < |s.pushed|
      && rlen == |s.pushed[|s.popped|]|
      && from == Idx(s.size, s.begin, HEADER)
      && forall k :: k in got ==> k < rlen && got[k] == s.pushed[|s.popped|][k]
  }

  ghost predicate Inv(s: State) {
    RingInv(s) && ProducerInv(s) && ConsumerInv(s)
  }

  // ---------- every step keeps it ----------

  lemma PushCopyKeeps(s: State, k: nat)
    requires Inv(s) && Enabled(s, PushCopy(k))
    ensures Inv(Step(s, PushCopy(k)))
  {
    FrameSlotIsIdx(s.size, s.end, |s.p.msg|, k);
  }

  /** Moving end over a completely written frame publishes one more message. */
  lemma Publish(s: State, t: State)
    requires Inv(s) && s.p.Writing? && forall k: nat :: k < HEADER + |s.p.msg| ==> k in s.p.done
    requires t == s.(end := Idx(s.size, s.end, HEADER + |s.p.msg|), p := Ready, pushed := s.pushed + [s.p.msg])
    ensures Inv(t)
  {
    StreamSnoc(s.pushed, s.p.msg);
    assert RingInv(t) by {
      assert t.pushed[..|t.popped|] == s.pushed[..|s.popped|];
      forall k | Tail(t) <= k < Head(t)
        ensures t.ring[Idx(t.size, t.begin, k - Tail(t))] == Stream(t.pushed)[k]
      {
        if k >= Head(s) { assert k - Head(s) in s.p.done; }
      }
    }
    if s.c.ReadingHeader? { assert t.pushed[..s.c.seen] == s.pushed[..s.c.seen]; }
  }

  lemma PushStoreEndKeeps(s: State)
    requires Inv(s) && Enabled(s, PushStoreEnd)
    ensures Inv(Step(s, PushStoreEnd))
  {
    AdvanceIsIdx(s.size, s.end, HEADER);
    AdvanceIsIdx(s.size, Idx(s.size, s.end, HEADER), |s.p.msg|);
    Publish(s, Step(s, PushStoreEnd));
  }

  /** The unread bytes start with the frame of the oldest message not popped yet. */
  lemma UnreadFrame(s: State)
    requires RingInv(s) && |s.popped| < |s.pushed|
    ensures var f := Frame(s.pushed[|s.popped|]);
            && Tail(s) + |f| <= Head(s)
            && forall k :: 0 <= k < |f| ==> s.ring[Idx(s.size, s.begin, k)] == f[k]
  {
    StreamSplit(s.pushed, |s.popped|);
    var f := Frame(s.pushed[|s.popped|]);
    forall k | 0 <= k < |f| ensures s.ring[Idx(s.size, s.begin, k)] == f[k] {
      assert Stream(s.pushed)[Tail(s)..][..|f|][k] == Stream(s.pushed)[Tail(s) + k];
    }
  }

  /** The indices agree exactly when nothing is queued. */
  lemma IndicesEqualIffEmpty(s: State)
    requires RingInv(s)
    ensures s.begin == s.end <==> s.popped == s.pushed
  {
    if |s.popped| < |s.pushed| { UnreadFrame(s); }
  }

  lemma PopLoadEndKeeps(s: State)
    requires Inv(s) && Enabled(s, PopLoadEnd)
    ensures Inv(Step(s, PopLoadEnd))
    ensures Step(s, PopLoadEnd).c.ReadingHeader? <==> s.popped != s.pushed
  {
    IndicesEqualIffEmpty(s);
    if |s.popped| < |s.pushed| { UnreadFrame(s); }
    assert s.pushed[..|s.pushed|] == s.pushed;
  }

  /** An end published after the oldest unread message leaves room for the whole message. */
  lemma SeenHoldsNext(s: State, seen: nat)
    requires RingInv(s) && |s.popped| < seen <= |s.pushed|
    ensures Tail(s) + |Frame(s.pushed[|s.popped|])| <= |Stream(s.pushed[..seen])| <= Head(s)
  {
    StreamSplit(s.pushed, seen);
    StreamSplit(s.pushed[..seen], |s.popped|);
    assert s.pushed[..seen][..|s.popped|] == s.popped;
  }

  lemma HeaderIsLength(got: map<nat, byte>, m: Message)
    requires Complete(got, HEADER) && forall k :: k in got ==> k < HEADER && got[k] == Frame(m)[k]
    ensures FromLeBytes(Collect(got, HEADER)) == |m|
  {
    assert Collect(got, HEADER) == LeBytes(|m|, HEADER);
    assert Pow256(4) == 0x1_0000_0000;
    LeRoundTrip(|m|, HEADER);
  }

  /** The header read is the length of the next message, the whole message is there, and the
      caller gets it exactly when its buffer is large enough. */
  lemma PopHeaderDoneKeeps(s: State)
    requires Inv(s) && Enabled(s, PopHeaderDone)
    ensures Inv(Step(s, PopHeaderDone))
    ensures Step(s, PopHeaderDone).c.ReadingBody? <==> 0 < s.c.cap && |s.pushed[|s.popped|]| <= s.c.cap
  {
    var t, m := Step(s, PopHeaderDone), s.pushed[|s.popped|];
    HeaderIsLength(s.c.got, m);
    assert t == s.(c := Waiting) || t == s.(c := ReadingBody(Idx(s.size, s.begin, HEADER), |m|, map[])) by {
      SeenHoldsNext(s, s.c.seen);
      LengthIsDistance(s.size, s.begin, |Stream(s.pushed[..s.c.seen])| - Tail(s));
      AdvanceIsIdx(s.size, s.begin, HEADER);
    }
  }

  /** Moving begin over the oldest frame consumes exactly that message. */
  lemma Consume(s: State, t: State)
    requires Inv(s) && |s.popped| < |s.pushed|
    requires var m := s.pushed[|s.popped|];
             t == s.(begin := Idx(s.size, s.begin, HEADER + |m|), c := Waiting, popped := s.popped + [m])
    ensures Inv(t)
  {
    var m := s.pushed[|s.popped|];
    StreamSnoc(s.popped, m);
    UnreadFrame(s);
    assert RingInv(t) by { assert t.pushed[..|t.popped|] == s.pushed[..|s.popped|] + [m]; }
    if s.p.PushLoaded? { assert t.popped[..s.p.seen] == s.popped[..s.p.seen]; }
  }

  lemma PopStoreBeginKeeps(s: State)
    requires Inv(s) && Enabled(s, PopStoreBegin)
    ensures Inv(Step(s, PopStoreBegin))
    ensures Step(s, PopStoreBegin).popped == s.popped + [s.pushed[|s.popped|]]
  {
    assert Collect(s.c.got, s.c.rlen) == s.pushed[|s.popped|];
    UnreadFrame(s);
    AdvanceIsIdx(s.size, s.c.from, s.c.rlen);
    Consume(s, Step(s, PopStoreBegin));
  }

  lemma PushLoadBeginKeeps(s: State, msg: Message)
    requires Inv(s) && Enabled(s, PushLoadBegin(msg))
    ensures Inv(Step(s, PushLoadBegin(msg)))
  {
    assert s.popped[..|s.popped|] == s.popped;
  }

  /** The push goes ahead exactly when its frame fits beside what was queued when begin was
      loaded; a stale begin only makes the producer overestimate that. */
  lemma PushLoadEndKeeps(s: State)
    requires Inv(s) && Enabled(s, PushLoadEnd)
    ensures Inv(Step(s, PushLoadEnd))
    ensures Step(s, PushLoadEnd).p.Writing? <==>
            Head(s) - |Stream(s.popped[..s.p.seen])| + |Frame(s.p.msg)| <= s.size - RESERVE
  {
    var t, msg := Step(s, PushLoadEnd), s.p.msg;
    assert t == s.(p := Ready)
      || (t == s.(p := Writing(msg, s.end, {})) && Head(s) + HEADER + |msg| <= Tail(s) + s.size - RESERVE) by {
      LengthIsDistance(s.size, s.p.begin, Head(s) - |Stream(s.popped[..s.p.seen])|);
    }
  }

  lemma PopCopyHeaderKeeps(s: State, k: nat)
    requires Inv(s) && Enabled(s, PopCopyHeader(k))
    ensures Inv(Step(s, PopCopyHeader(k)))
  {
    UnreadFrame(s);
    assert Slot(s.size, s.c.from, HEADER, k) == Idx(s.size, s.begin, k);
  }

  lemma PopCopyBodyKeeps(s: State, k: nat)
    requires Inv(s) && Enabled(s, PopCopyBody(k))
    ensures Inv(Step(s, PopCopyBody(k)))
  {
    UnreadFrame(s);
    assert Slot(s.size, s.c.from, s.c.rlen, k) == Idx(s.size, s.begin, HEADER + k);
    assert Frame(s.pushed[|s.popped|])[HEADER + k] == s.pushed[|s.popped|][k];
  }

  lemma StepKeeps(s: State, a: Action)
    requires Inv(s) && Enabled(s, a)
    ensures Inv(Step(s, a))
  {
    match a
    case PushLoadBegin(msg) => PushLoadBeginKeeps(s, msg);
    case PushLoadEnd => PushLoadEndKeeps(s);
    case PushCopy(k) => PushCopyKeeps(s, k);
    case PushStoreEnd => PushStoreEndKeeps(s);
    case PopLoadBegin(_) =>
    case PopLoadEnd => PopLoadEndKeeps(s);
    case PopCopyHeader(k) => PopCopyHeaderKeeps(s, k);
    case PopHeaderDone => PopHeaderDoneKeeps(s);
    case PopCopyBody(k) => PopCopyBodyKeeps(s, k);
    case PopStoreBegin => PopStoreBeginKeeps(s);
  }

  // ---------- whole runs ----------

  ghost predicate Legal(s: State, run: seq<Action>)
    decreases |run|
  {
    run != [] ==> Enabled(s, run[0]) && Legal(Step(s, run[0]), run[1..])
  }

  ghost function Run(s: State, run: seq<Action>): State
    requires Legal(s, run)
    decreases |run|
  {
    if run == [] then s else Run(Step(s, run[0]), run[1..])
  }

  lemma {:induction false} RunKeeps(s: State, run: seq<Action>)
    requires Inv(s) && Legal(s, run)
    ensures Inv(Run(s, run))
    decreases |run|
  {
    if run != [] {
      StepKeeps(s, run[0]);
      RunKeeps(Step(s, run[0]), run[1..]);
    }
  }

  /** A slot that the consumer may still read from. */
  ghost predicate ReadsSlot(s: State, x: int)
    requires s.size > 0
  {
    || (s.c.ReadingHeader? && exists k: nat :: k < HEADER && x == Slot(s.size, s.c.from, HEADER, k))
    || (s.c.ReadingBody? && exists k: nat :: k < s.c.rlen && x == Slot(s.size, s.c.from, s.c.rlen, k))
  }

  /** A slot that the producer may still write to. */
  ghost predicate WritesSlot(s: State, x: int)
    requires s.size > 0
  {
    s.p.Writing? && exists k: nat :: k < HEADER + |s.p.msg| && x == FrameSlot(s.size, s.p.at, |s.p.msg|, k)
  }

  lemma ReadInBounds(s: State, x: int)
    requires Inv(s) && ReadsSlot(s, x)
    ensures 0 <= x < s.size
  {
    UnreadFrame(s);
  }

  lemma ReadMissesWrite(s: State, x: int)
    requires Inv(s) && WritesSlot(s, x)
    ensures 0 <= x < s.size && !ReadsSlot(s, x)
  {
    var k: nat :| k < HEADER + |s.p.msg| && x == FrameSlot(s.size, s.p.at, |s.p.msg|, k);
    FrameSlotIsIdx(s.size, s.end, |s.p.msg|, k);
    if |s.popped| < |s.pushed| { UnreadFrame(s); }
  }

  /** Safety of every interleaving: what was popped is an intact in-order prefix of what was
      pushed, no error branch ever discards data, both sides stay inside the ring on slots
      that never coincide, and the two indices agree only on an empty queue. */
  lemma {:induction false} EveryRunIsSafe(s: State, run: seq<Action>)
    requires Init(s) && Legal(s, run)
    ensures var t := Run(s, run);
            && t.popped <= t.pushed && !t.lost
            && (t.begin == t.end <==> t.popped == t.pushed)
            && t.size > 0
            && (forall x :: WritesSlot(t, x) ==> 0 <= x < t.size && !ReadsSlot(t, x))
            && (forall x :: ReadsSlot(t, x) ==> 0 <= x < t.size)
  {
    RunKeeps(s, run);
    var t := Run(s, run);
    IndicesEqualIffEmpty(t);
    forall x | WritesSlot(t, x) ensures 0 <= x < t.size && !ReadsSlot(t, x) {
      ReadMissesWrite(t, x);
    }
    forall x | ReadsSlot(t, x) ensures 0 <= x < t.size {
      ReadInBounds(t, x);
    }
  }
}
