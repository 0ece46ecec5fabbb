/** The growing, compacting byte buffer of framework/buffer.c. */
module Buffer {
  import opened Wrappers
  import opened Bytes

  /** ALIGN: round up to a multiple of four. */
  function AlignUp(n: nat): (r: nat)
    ensures n <= r < n + 4 && r % 4 == 0
  {
    (n + 3) / 4 * 4
  }

  class ByteBuffer {
    var size: nat
    var rpos: nat
    var wpos: nat
    var data: array<byte>

    /** What CHECK asserts, plus what the allocator guarantees. */
    ghost predicate Valid()
      reads this
    {
      rpos <= wpos <= size == data.Length && size > 0
    }

    /** The bytes written and not read yet. */
    ghost function Contents(): seq<byte>
      requires Valid()
      reads this, data
    {
      data[rpos..wpos]
    }

    constructor (n: nat)
      ensures Valid() && fresh(data) && Contents() == []
      ensures size == AlignUp(if n == 0 then 64 else n)
    {
      var s := AlignUp(if n == 0 then 64 else n);
      size, rpos, wpos := s, 0, 0;
      data := new byte[s];
    }

    method Size() returns (n: nat)
      requires Valid()
      ensures n == |Contents()|
    {
      n := wpos - rpos;
    }

    /** _agB_align: move the unread bytes to the front. */
    method Align()
      requires Valid()
      modifies this`rpos, this`wpos, data
      ensures Valid() && Contents() == old(Contents())
      ensures rpos == 0 || (rpos == wpos && rpos == old(rpos))
    {
      if rpos > 0 && wpos > rpos {
        var s := wpos - rpos;
        forall i | 0 <= i < s {
          data[i] := data[rpos + i];
        }
        rpos, wpos := 0, s;
        assert data[..s] == old(data[rpos..wpos]);
      }
    }

    /** _agB_resize: false, with nothing changed, exactly when the unread bytes do not fit. The
        second precondition is what the source asserts after it has tried to align. */
    method Resize(n: nat) returns (ok: bool)
      requires Valid()
      requires n > 0
      requires wpos > n ==> rpos < wpos
      modifies this, data
      ensures Valid() && Contents() == old(Contents())
      ensures ok <==> old(wpos - rpos) <= n
      ensures if ok then size == n && fresh(data) else size == old(size) && data == old(data)
    {
      if n < wpos - rpos {
        return false;
      }
      if wpos > n {
        Align();
      }
      assert wpos <= n;
      var d := new byte[n];
      forall i | 0 <= i < wpos {
        d[i] := data[i];
      }
      assert d[rpos..wpos] == data[rpos..wpos];
      data, size := d, n;
      ok := true;
    }

    method Peek(len: nat) returns (r: Option<seq<byte>>)
      requires Valid()
      ensures r == if len <= |Contents()| then Some(Contents()[..len]) else None
    {
      if wpos - rpos < len {
        r := None;
      } else {
        r := Some(data[rpos..rpos + len]);
        assert data[rpos..wpos][..len] == data[rpos..rpos + len];
      }
    }

    method Read(len: nat) returns (r: Option<seq<byte>>)
      requires Valid()
      modifies this`rpos
      ensures Valid()
      ensures if len <= |old(Contents())|
              then r == Some(old(Contents())[..len]) && Contents() == old(Contents())[len..]
              else r == None && Contents() == old(Contents())
    {
      if wpos - rpos < len {
        r := None;
      } else {
        assert data[rpos..wpos][..len] == data[rpos..rpos + len];
        r := Some(data[rpos..rpos + len]);
        rpos := rpos + len;
      }
    }

    /** _agB_buffer: append len bytes of unspecified value and say where they start. Neither the
        assertion in Resize nor the one before the append can fail. */
    method Reserve(len: nat) returns (at: nat)
      requires Valid()
      modifies this, data
      ensures Valid()
      ensures at + len == wpos && rpos <= at && size >= old(size)
      ensures data[rpos..at] == old(Contents())
      ensures data == old(data) || fresh(data)
    {
      var ns := size;
      var nr := wpos - rpos + len;
      while ns < nr
        invariant ns >= size && (ns == size || ns < 2 * nr)
        decreases nr - ns
      {
        ns := ns * 2;
      }
      if ns != size {
        var ok := Resize(ns);
        assert ok;
      }
      assert wpos - rpos + len <= size;
      if rpos == wpos {
        rpos, wpos := 0, 0;
      }
      var tail := size - wpos;
      if tail < len {
        Align();
      }
      assert size - wpos >= len;
      at := wpos;
      wpos := wpos + len;
    }

    method Write(s: seq<byte>)
      requires Valid()
      modifies this, data
      ensures Valid() && Contents() == old(Contents()) + s
      ensures data == old(data) || fresh(data)
    {
      var at := Reserve(|s|);
      ghost var before := data[rpos..at];
      forall i | 0 <= i < |s| {
        data[at + i] := s[i];
      }
      assert data[rpos..at] == before;
      assert data[at..wpos] == s;
      assert data[rpos..wpos] == data[rpos..at] + data[at..wpos];
    }
  }
}
