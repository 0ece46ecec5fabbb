/**
  One connection of framework/network.c: the receive path that cuts an incoming byte stream
  into packages, and the send path that queues what the kernel does not take. The kernel is
  a list of recv results and a count of bytes taken by each send.
 */
module Connection {
  import opened Sequences
  import opened Bytes
  import opened Buffer

  // ---------- cutting a stream into packages ----------

  /** What on_message answers: how many bytes it consumed, and whether it closed the connection. */
  datatype Verdict = Verdict(consumed: nat, closes: bool)

  type Handler = seq<byte> -> Verdict

  /** The answer settles one package; otherwise the handler wants to see more bytes. */
  predicate Settles(v: Verdict, len: nat) {
    v.closes || 0 < v.consumed <= len
  }

  /** An answer that settles a package does not depend on the bytes behind it. */
  ghost predicate Stable(h: Handler) {
    forall d: seq<byte>, x: seq<byte> {:trigger h(d + x)} :: Settles(h(d), |d|) ==> h(d + x) == h(d)
  }

  datatype Drained = Drained(packages: seq<seq<byte>>, rest: seq<byte>, closed: bool)

  /** What cutting a whole byte sequence at once gives. */
  ghost function Drain(h: Handler, data: seq<byte>): Drained
    decreases |data|
  {
    if data == [] || !Settles(h(data), |data|) then Drained([], data, false)
    else if h(data).closes then Drained([], data, true)
    else
      var n := h(data).consumed;
      var d := Drain(h, data[n..]);
      Drained([data[..n]] + d.packages, d.rest, d.closed)
  }

  /** Cutting loses and invents nothing. */
  lemma {:induction false} DrainConserves(h: Handler, data: seq<byte>)
    ensures Concat(Drain(h, data).packages) + Drain(h, data).rest == data
    decreases |data|
  {
    if data != [] && Settles(h(data), |data|) && !h(data).closes {
      var n := h(data).consumed;
      DrainConserves(h, data[n..]);
      var d := Drain(h, data[n..]);
      assert Drain(h, data).packages[1..] == d.packages;
      assert data == data[..n] + (Concat(d.packages) + d.rest);
    }
  }

  /** What is left over settles no further package. */
  lemma {:induction false} DrainRest(h: Handler, data: seq<byte>)
    requires !Drain(h, data).closed
    ensures Drain(h, Drain(h, data).rest) == Drained([], Drain(h, data).rest, false)
    decreases |data|
  {
    if data != [] && Settles(h(data), |data|) {
      DrainRest(h, data[h(data).consumed..]);
    }
  }

  /** Cutting a stream piecewise, carrying the rest over, is the same as cutting it whole. */
  lemma {:induction false} DrainSplit(h: Handler, a: seq<byte>, b: seq<byte>)
    requires Stable(h)
    ensures var d := Drain(h, a);
            if d.closed then Drain(h, a + b).closed && Drain(h, a + b).packages == d.packages
            else
              var e := Drain(h, d.rest + b);
              Drain(h, a + b) == Drained(d.packages + e.packages, e.rest, e.closed)
    decreases |a|
  {
    if a == [] {
      assert a + b == b;
    } else if !Settles(h(a), |a|) {
      assert Drain(h, a) == Drained([], a, false);
    } else {
      assert h(a + b) == h(a);
      if !h(a).closes {
        var n := h(a).consumed;
        var tail := a[n..];
        assert (a + b)[n..] == tail + b;
        assert (a + b)[..n] == a[..n];
        DrainSplit(h, tail, b);
        DrainOne(h, a);
        DrainOne(h, a + b);
        var d := Drain(h, tail);
        var e := Drain(h, d.rest + b);
        assert [a[..n]] + (d.packages + e.packages) == ([a[..n]] + d.packages) + e.packages;
      }
    }
  }

  /** One package off the front. */
  lemma DrainOne(h: Handler, data: seq<byte>)
    requires data != [] && 0 < h(data).consumed <= |data| && !h(data).closes
    ensures var n := h(data).consumed;
            var d := Drain(h, data[n..]);
            Drain(h, data) == Drained([data[..n]] + d.packages, d.rest, d.closed)
  {
  }

  /** What the connection has handed over after receiving the chunks one by one. */
  ghost function Feed(h: Handler, chunks: seq<seq<byte>>): Drained {
    if chunks == [] then Drained([], [], false)
    else
      var d := Feed(h, chunks[..|chunks| - 1]);
      if d.closed then d
      else
        var e := Drain(h, d.rest + chunks[|chunks| - 1]);
        Drained(d.packages + e.packages, e.rest, e.closed)
  }

  /** However the kernel cuts the stream, the same packages are delivered. */
  lemma {:induction false} ChunkingDoesNotMatter(h: Handler, chunks: seq<seq<byte>>)
    requires Stable(h)
    ensures var whole := Drain(h, Concat(chunks));
            && Feed(h, chunks).packages == whole.packages
            && Feed(h, chunks).closed == whole.closed
            && (!whole.closed ==> Feed(h, chunks).rest == whole.rest)
  {
    if chunks != [] {
      var front, last := chunks[..|chunks| - 1], chunks[|chunks| - 1];
      ChunkingDoesNotMatter(h, front);
      ConcatSnoc(front, last);
      assert front + [last] == chunks;
      DrainSplit(h, Concat(front), last);
    }
  }

  // ---------- the length-prefixed handler of the gateway ----------

  const HEADER := 28  // sizeof(struct translate_header), packed

  /** ntohl of the first header field */
  function PackageLength(d: seq<byte>): nat
    requires |d| >= HEADER
  {
    FromLeBytes([d[3], d[2], d[1], d[0]])
  }

  /** How gateway/backend.c answers, for handlers that never close the connection themselves. */
  function Framed(d: seq<byte>): Verdict {
    if |d| < HEADER then Verdict(0, false)
    else if |d| < PackageLength(d) then Verdict(0, false)
    else Verdict(PackageLength(d), false)
  }

  /** A package begins with its own length, high byte first, and holds at least the 28 bytes of the header. */
  ghost predicate WellFormed(p: seq<byte>) {
    |p| >= 28 && |p| == p[0] as int * 0x100_0000 + p[1] as int * 0x1_0000 + p[2] as int * 0x100 + p[3]
  }

  lemma LengthIs(d: seq<byte>)
    requires |d| >= HEADER
    ensures PackageLength(d) == d[0] as int * 0x100_0000 + d[1] as int * 0x1_0000 + d[2] as int * 0x100 + d[3]
  {
    var w := [d[3], d[2], d[1], d[0]];
    assert w[1..] == [d[2], d[1], d[0]] && w[1..][1..] == [d[1], d[0]] && w[1..][1..][1..] == [d[0]];
    assert FromLeBytes([d[0]]) == d[0] as int + 256 * FromLeBytes([]) by { assert [d[0]][1..] == []; }
    assert FromLeBytes([d[1], d[0]]) == d[1] as int + 256 * FromLeBytes([d[0]]);
    assert FromLeBytes([d[2], d[1], d[0]]) == d[2] as int + 256 * FromLeBytes([d[1], d[0]]);
  }

  lemma FramedIsStable()
    ensures Stable(Framed)
  {
    forall d: seq<byte>, x: seq<byte> | Settles(Framed(d), |d|) ensures Framed(d + x) == Framed(d) {
      assert (d + x)[..4] == d[..4];
    }
  }

  lemma {:induction false} WellFormedDrain(ps: seq<seq<byte>>)
    requires forall i :: 0 <= i < |ps| ==> WellFormed(ps[i])
    ensures Drain(Framed, Concat(ps)) == Drained(ps, [], false)
  {
    if ps != [] {
      WellFormedDrain(ps[1..]);
      LengthIs(ps[0]);
      var s := Concat(ps);
      assert s[..4] == ps[0][..4];
      assert s[|ps[0]|..] == Concat(ps[1..]);
      assert s[..|ps[0]|] == ps[0];
    }
  }

  /** A stream of well-formed packages comes out as those packages, for every way of cutting it. */
  lemma FramesReassemble(ps: seq<seq<byte>>, chunks: seq<seq<byte>>)
    requires forall i :: 0 <= i < |ps| ==> WellFormed(ps[i])
    requires Concat(chunks) == Concat(ps)
    ensures Feed(Framed, chunks) == Drained(ps, [], false)
  {
    FramedIsStable();
    ChunkingDoesNotMatter(Framed, chunks);
    WellFormedDrain(ps);
  }

  // ---------- the receiving half of a connection ----------

  /** One result of recv on a non-blocking socket. */
  datatype Recv = Data(bytes: seq<byte>) | WouldBlock | Interrupted | PeerClosed | Failed

  const CHUNK := 1024  // DEFAULT_BUFFER_SIZE
  const READ_LIMIT := 1024 * 10

  function Payload(r: Recv): seq<byte> {
    if r.Data? then r.bytes else []
  }

  /** What the first n results brought in. */
  ghost function Arrived(results: seq<Recv>, n: nat): seq<byte>
    requires n <= |results|
  {
    if n == 0 then [] else Arrived(results, n - 1) + Payload(results[n - 1])
  }

  lemma ArrivedNext(before: seq<byte>, results: seq<Recv>, n: nat)
    requires n < |results|
    ensures before + Arrived(results, n) + Payload(results[n]) == before + Arrived(results, n + 1)
  {
  }

  /** process_conn_message: offer the data package by package. */
  method ProcessMessages(h: Handler, data: seq<byte>) returns (used: nat, packages: seq<seq<byte>>, closed: bool)
    ensures var d := Drain(h, data);
            packages == d.packages && closed == d.closed && used <= |data| && data[used..] == d.rest
  {
    used, packages, closed := 0, [], false;
    while used < |data|
      invariant used <= |data| && !closed
      invariant var d := Drain(h, data[used..]);
                Drain(h, data) == Drained(packages + d.packages, d.rest, d.closed)
      decreases |data| - used
    {
      var v := h(data[used..]);
      if v.closes || v.consumed == 0 || v.consumed > |data| - used {
        closed := v.closes;
        break;
      }
      DrainOne(h, data[used..]);
      assert data[used..][v.consumed..] == data[used + v.consumed..];
      packages := packages + [data[used..][..v.consumed]];
      used := used + v.consumed;
    }
  }

  /** The packages delivered are those of the whole stream received so far, and while the
      connection is up the read buffer holds exactly the bytes behind the last of them. */
  ghost predicate Received(h: Handler, stream: seq<byte>, delivered: seq<seq<byte>>, rest: seq<byte>, up: bool) {
    var d := Drain(h, stream);
    delivered == d.packages && (up ==> !d.closed && rest == d.rest)
  }

  lemma ReceivedMore(h: Handler, stream: seq<byte>, delivered: seq<seq<byte>>, rest: seq<byte>, chunk: seq<byte>, rest': seq<byte>)
    requires Stable(h) && Received(h, stream, delivered, rest, true)
    requires !Drain(h, rest + chunk).closed ==> rest' == Drain(h, rest + chunk).rest
    ensures var e := Drain(h, rest + chunk);
            Received(h, stream + chunk, delivered + e.packages, rest', !e.closed)
  {
    DrainSplit(h, stream, chunk);
  }

  /** While the connection is up: nothing received is lost, and what is kept settles no package. */
  ghost predicate Kept(h: Handler, stream: seq<byte>, delivered: seq<seq<byte>>, rest: seq<byte>) {
    Concat(delivered) + rest == stream && Drain(h, rest) == Drained([], rest, false)
  }

  lemma KeptMore(h: Handler, stream: seq<byte>, delivered: seq<seq<byte>>, rest: seq<byte>, chunk: seq<byte>)
    requires Kept(h, stream, delivered, rest) && !Drain(h, rest + chunk).closed
    ensures var e := Drain(h, rest + chunk); Kept(h, stream + chunk, delivered + e.packages, e.rest)
  {
    var e := Drain(h, rest + chunk);
    DrainConserves(h, rest + chunk);
    DrainRest(h, rest + chunk);
    hide Drain, Concat;
    ConcatAppend(delivered, e.packages);
    Assoc(Concat(delivered), Concat(e.packages), e.rest);
    Assoc(Concat(delivered), rest, chunk);
  }

  class Receiver {
    const h: Handler
    var connected: bool  // status == cs_connected
    const rbuf: ByteBuffer  // allocated up front; the source waits for the first byte to keep
    ghost var received: seq<byte>        // everything recv returned
    ghost var delivered: seq<seq<byte>>  // packages the handler consumed

    ghost predicate Valid()
      reads this, rbuf, rbuf.data
    {
      && rbuf.Valid()
      && (connected ==> Kept(h, received, delivered, rbuf.Contents()))
      && (Stable(h) ==> Received(h, received, delivered, rbuf.Contents(), connected))
    }

    constructor (h: Handler)
      ensures Valid() && connected && this.h == h && received == [] && fresh(rbuf) && fresh(rbuf.data)
    {
      this.h := h;
      connected := true;
      rbuf := new ByteBuffer(CHUNK);
      received, delivered := [], [];
    }

    /** What do_conn_read does with the bytes of one recv. */
    method TakeChunk(buff: seq<byte>)
      requires Valid() && connected
      modifies this, rbuf, rbuf.data
      ensures Valid() && received == old(received) + buff
      ensures rbuf.data == old(rbuf.data) || fresh(rbuf.data)
    {
      ghost var rest := rbuf.Contents();
      if rbuf.wpos == rbuf.rpos {
        assert rest + buff == buff;
        var used, packages, closed := ProcessMessages(h, buff);
        if Stable(h) { ReceivedMore(h, received, delivered, rest, buff, buff[used..]); }
        if !closed { KeptMore(h, received, delivered, rest, buff); }
        received, delivered := received + buff, delivered + packages;
        if closed {
          connected := false;
          return;
        }
        if used < |buff| {
          rbuf.Write(buff[used..]);
          assert rbuf.Contents() == buff[used..];
        }
      } else {
        rbuf.Write(buff);
        var size := rbuf.Size();
        var seen := rbuf.Peek(size);
        assert seen.value == rest + buff;
        var used, packages, closed := ProcessMessages(h, seen.value);
        if Stable(h) { ReceivedMore(h, received, delivered, rest, buff, (rest + buff)[used..]); }
        if !closed { KeptMore(h, received, delivered, rest, buff); }
        received, delivered := received + buff, delivered + packages;
        if closed {
          connected := false;
          return;
        }
        var _ := rbuf.Read(used);
      }
    }

    /** Offer what is buffered once more, as do_conn_read does before it gives up. Nothing comes of
        it: what is buffered settles no package. */
    method OfferAgain()
      requires Valid() && connected
      modifies this, rbuf, rbuf.data
      ensures Valid() && connected && received == old(received) && delivered == old(delivered)
      ensures rbuf.data == old(rbuf.data)
    {
      if rbuf.wpos > rbuf.rpos {
        var size := rbuf.Size();
        var seen := rbuf.Peek(size);
        assert seen.value == rbuf.Contents();
        var used, packages, closed := ProcessMessages(h, seen.value);
        assert !closed && packages == [] && used == 0;
        assert delivered + packages == delivered;
        delivered, connected := delivered + packages, !closed;
        if connected {
          var _ := rbuf.Read(used);
        }
      }
    }

    /** One turn of the loop of do_conn_read. */
    method Handle(r: Recv) returns (more: bool)
      requires Valid() && connected
      modifies this, rbuf, rbuf.data
      ensures Valid() && received == old(received) + Payload(r)
      ensures more <==> connected && !r.WouldBlock?
      ensures rbuf.data == old(rbuf.data) || fresh(rbuf.data)
    {
      match r {
        case PeerClosed => connected := false;
        case Failed => connected := false;
        case Interrupted =>
        case WouldBlock => OfferAgain();
        case Data(bytes) => TakeChunk(bytes);
      }
      more := connected && !r.WouldBlock?;
    }

    /** do_conn_read: read until the kernel would block, the peer is gone, the handler closes the
        connection, or ten kilobytes have been read in one go. */
    method ReadReady(results: seq<Recv>) returns (n: nat)
      requires Valid()
      modifies this, rbuf, rbuf.data
      ensures Valid() && n <= |results| && received == old(received) + Arrived(results, n)
      ensures !old(connected) ==> n == 0
      ensures connected ==> Concat(delivered) + rbuf.Contents() == received
      ensures connected && Stable(h) ==> delivered == Drain(h, received).packages
    {
      hide Drain, Concat, Stable;
      n := 0;
      var bits, more := 0, connected;
      while more && bits < READ_LIMIT && n < |results|
        invariant Valid() && n <= |results|
        invariant more ==> connected
        invariant !old(connected) ==> n == 0 && !connected
        invariant rbuf.data == old(rbuf.data) || fresh(rbuf.data)
        invariant received == old(received) + Arrived(results, n)
        decreases |results| - n
      {
        bits := bits + |Payload(results[n])|;
        more := Handle(results[n]);
        ArrivedNext(old(received), results, n);
        n := n + 1;
      }
    }
  }

  // ---------- the sending half of a connection ----------

  /** The iovec array after the kernel took n bytes of it: emptied parts stay as empty parts. */
  function Trim(parts: seq<seq<byte>>, n: int): (r: seq<seq<byte>>)
    ensures |r| == |parts|
  {
    if parts == [] || n <= 0 then parts
    else if n > |parts[0]| then [[]] + Trim(parts[1..], n - |parts[0]|)
    else [parts[0][n..]] + parts[1..]
  }

  lemma {:induction false} TrimDropsPrefix(parts: seq<seq<byte>>, n: int)
    requires n <= |Concat(parts)|
    ensures Concat(Trim(parts, n)) == if n > 0 then Concat(parts)[n..] else Concat(parts)
  {
    if parts != [] && n > 0 {
      assert Trim(parts, n)[1..] == if n > |parts[0]| then Trim(parts[1..], n - |parts[0]|) else parts[1..];
      if n > |parts[0]| {
        TrimDropsPrefix(parts[1..], n - |parts[0]|);
      }
    }
  }

  lemma TrimCons(head: seq<seq<byte>>, part: seq<byte>, tail: seq<seq<byte>>, left: nat)
    requires left > 0
    ensures head + Trim([part] + tail, left) ==
            if left > |part| then (head + [[]]) + Trim(tail, left - |part|) else head + ([part[left..]] + tail)
  {
    assert ([part] + tail)[1..] == tail;
  }

  lemma TrimNone(parts: seq<seq<byte>>, n: int)
    requires parts == [] || n <= 0
    ensures Trim(parts, n) == parts
  {
  }

  /** Bytes may bypass the queue only while it is empty. */
  lemma BypassKeepsOrder(kernel: seq<byte>, queue: seq<byte>, sent: seq<byte>, rest: seq<byte>)
    requires sent == [] || queue == []
    ensures kernel + queue + (sent + rest) == (kernel + sent) + (queue + rest)
  {
  }

  class Sender {
    var connected: bool  // status == cs_connected
    var wantWrite: bool  // EPOLLOUT is registered for the connection
    const wbuf: ByteBuffer  // allocated up front; the source waits for the first byte to queue
    ghost var accepted: seq<byte>  // payloads of the calls that returned 0
    ghost var kernel: seq<byte>    // bytes that send and writev took
    ghost var refused: bool        // some epoll_ctl failed

    /** The kernel's bytes followed by the queue are the accepted payloads, in order, and while the connection is up
        a queue that is not empty has asked for a write event, unless epoll_ctl has ever refused. */
    ghost predicate Valid()
      reads this, wbuf, wbuf.data
    {
      && wbuf.Valid()
      && accepted == kernel + wbuf.Contents()
      && (connected && wbuf.Contents() != [] && !refused ==> wantWrite)
    }

    constructor ()
      ensures Valid() && connected && !refused && accepted == kernel == [] && fresh(wbuf) && fresh(wbuf.data)
    {
      connected, wantWrite := true, false;
      wbuf := new ByteBuffer(CHUNK);
      accepted, kernel, refused := [], [], false;
    }

    /** conn_set_event, for write events on or off: ctl is what epoll_ctl answers if it is asked. */
    method SetEvent(on: bool, ctl: int) returns (status: int)
      modifies this`wantWrite, this`refused
      ensures status == (if old(wantWrite) == on then 0 else ctl)
      ensures wantWrite == (if status == 0 then on else old(wantWrite)) && refused == (old(refused) || status != 0)
    {
      if wantWrite == on {
        return 0;
      }
      if ctl == 0 {
        wantWrite := on;
      } else {
        refused := true;
      }
      status := ctl;
    }

    /** _agN_send: took and ctl are what send(2) and epoll_ctl(2) answer if they are asked. */
    method Send(buff: seq<byte>, took: int, ctl: int) returns (status: int)
      requires Valid() && took <= |buff|
      modifies this, wbuf, wbuf.data
      ensures Valid() && connected == old(connected)
      ensures status == if !old(connected) then -1 else if buff == [] && !old(wantWrite) then ctl else 0
      ensures accepted == old(accepted) + (if old(connected) then buff else [])
      ensures kernel == old(kernel) + (if old(connected) && old(wbuf.Contents()) == [] && took > 0 then buff[..took] else [])
      ensures wbuf.data == old(wbuf.data) || fresh(wbuf.data)
    {
      if !connected {
        return -1;
      }
      if |buff| == 0 {
        status := SetEvent(true, ctl);
        return;
      }
      var rest := buff;
      if wbuf.wpos == wbuf.rpos && took > 0 {
        kernel := kernel + buff[..took];
        rest := buff[took..];
        assert buff[..took] + rest == buff;
      }
      accepted := accepted + buff;
      if |rest| > 0 {
        wbuf.Write(rest);
        var _ := SetEvent(true, ctl);
      }
      assert accepted == kernel + wbuf.Contents();
      status := 0;
    }

    /** The adjustment of the iovec array after writev answered ret. */
    static method TrimVector(iov: seq<seq<byte>>, ret: int) returns (v: seq<seq<byte>>)
      ensures v == Trim(iov, ret)
    {
      hide Trim;
      v := iov;
      var left, i := ret, 0;
      assert v[..0] + Trim(v[0..], left) == Trim(iov, ret) by { assert v[0..] == iov; }
      while i < |v| && left > 0
        invariant 0 <= i <= |v|
        invariant v[..i] + Trim(v[i..], left) == Trim(iov, ret)
      {
        ghost var head, tail := v[..i], v[i + 1..];
        assert v[i..] == [v[i]] + tail;
        TrimCons(head, v[i], tail, left);
        if left > |v[i]| {
          left := left - |v[i]|;
          v := v[i := []];
          assert v[..i + 1] == head + [[]] && v[i + 1..] == tail;
        } else {
          v := v[i := v[i][left..]];
          assert v == head + ([v[i]] + tail);
          return;
        }
        i := i + 1;
      }
      TrimNone(v[i..], left);
      assert v == v[..i] + v[i..];
    }

    /** Queue every part that still holds bytes. */
    method QueueRest(iov: seq<seq<byte>>)
      requires wbuf.Valid()
      modifies wbuf, wbuf.data
      ensures wbuf.Valid() && wbuf.Contents() == old(wbuf.Contents()) + Concat(iov)
      ensures wbuf.data == old(wbuf.data) || fresh(wbuf.data)
    {
      var i := 0;
      ghost var was := wbuf.Contents();
      assert Concat(iov[..0]) == [];
      while i < |iov|
        invariant 0 <= i <= |iov| && wbuf.Valid()
        invariant wbuf.Contents() == was + Concat(iov[..i])
        invariant wbuf.data == old(wbuf.data) || fresh(wbuf.data)
      {
        ConcatSnoc(iov[..i], iov[i]);
        assert iov[..i] + [iov[i]] == iov[..i + 1];
        Assoc(was, Concat(iov[..i]), iov[i]);
        if |iov[i]| > 0 {
          wbuf.Write(iov[i]);
        }
        i := i + 1;
      }
      assert iov[..i] == iov;
    }

    /** _agN_writev: took and ctl are what writev(2) and epoll_ctl(2) answer if they are asked. */
    method Writev(iov: seq<seq<byte>>, took: int, ctl: int) returns (status: int)
      requires Valid() && took <= |Concat(iov)|
      modifies this, wbuf, wbuf.data
      ensures Valid() && connected == old(connected)
      ensures status == (if old(connected) then 0 else -1)
      ensures accepted == old(accepted) + (if status == 0 then Concat(iov) else [])
      ensures kernel == old(kernel) +
              (if status == 0 && old(wbuf.Contents()) == [] && took > 0 then Concat(iov)[..took] else [])
      ensures wbuf.data == old(wbuf.data) || fresh(wbuf.data)
    {
      hide Concat, Trim;
      if !connected {
        return -1;
      }
      var v := iov;
      ghost var sent: seq<byte> := [];
      if wbuf.wpos == wbuf.rpos {
        TrimDropsPrefix(iov, took);
        v := TrimVector(iov, took);
        if took > 0 { sent := Concat(iov)[..took]; }
      }
      assert sent + Concat(v) == Concat(iov);
      BypassKeepsOrder(kernel, wbuf.Contents(), sent, Concat(v));
      QueueRest(v);
      kernel, accepted := kernel + sent, accepted + Concat(iov);
      if wbuf.wpos > wbuf.rpos {
        var _ := SetEvent(true, ctl);
      }
      status := 0;
    }

    /** do_conn_write: the socket became writable; took and ctl are what send(2) and epoll_ctl(2) answer. */
    method WriteReady(took: int, ctl: int)
      requires Valid() && took <= |wbuf.Contents()|
      modifies this, wbuf
      ensures Valid() && connected == old(connected) && accepted == old(accepted)
      ensures kernel == old(kernel) + (if old(connected) && took > 0 then old(wbuf.Contents())[..took] else [])
      ensures wbuf.data == old(wbuf.data)
    {
      if !connected {
        return;
      }
      if wbuf.wpos > wbuf.rpos && took > 0 {
        kernel := kernel + wbuf.Contents()[..took];
        var _ := wbuf.Read(took);
      }
      if wbuf.wpos == wbuf.rpos {
        var _ := SetEvent(false, ctl);
      }
    }
  }
}
