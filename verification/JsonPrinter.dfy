/**
  The print buffer of framework/cJSON.c: text goes into an array that is either given and fixed or grows on
  demand, every piece announced to ensure beforehand.
 */
module JsonPrinter {
  import opened Sequences
  import opened Bytes
  import opened JsonText
  import opened Json
  import JsonGrammar
  import JsonParser

  const INT_MAX: nat := 0x7FFF_FFFF

  /** sprintf fills at most 25 of the 26 bytes of number_buffer, and its text holds no NUL. */
  ghost predicate Printable<N(!new)>(k: Codec<N>) {
    forall n: N :: |k.show(n)| <= 25 && 0 !in k.show(n)
  }

  // ---------- printed text holds no NUL ----------

  lemma {:induction false} EscapeNulFree(s: seq<byte>)
    requires 0 !in s
    ensures 0 !in Escape(s)
  {
    if s != [] {
      assert s[0] in s && forall b :: b in s[1..] ==> b in s;
      EscapeNulFree(s[1..]);
    }
  }

  lemma QuotedNulFree(s: seq<byte>)
    requires 0 !in s
    ensures 0 !in Quoted(s)
  {
    EscapeNulFree(s);
  }

  lemma {:induction false} PrintNulFree<N(!new)>(k: Codec<N>, v: Value<N>, format: bool, depth: nat)
    requires Printable(k) && NulFree(v)
    ensures 0 !in Print(k, v, format, depth)
    decreases v, 1
  {
    match v
    case Str(s) => QuotedNulFree(s);
    case Arr(items) => ItemsPrintNulFree(k, items, format, depth + 1);
    case Obj(members) => MembersPrintNulFree(k, members, format, depth + 1);
    case _ =>
  }

  lemma {:induction false} ItemsPrintNulFree<N(!new)>(k: Codec<N>, items: seq<Value<N>>, format: bool, depth: nat)
    requires Printable(k) && ItemsNulFree(items)
    ensures 0 !in PrintItems(k, items, format, depth)
    decreases items, 0
  {
    hide Print, Printable;
    if items != [] {
      PrintNulFree(k, items[0], format, depth);
      ItemsPrintNulFree(k, items[1..], format, depth);
    }
  }

  lemma {:induction false} MembersPrintNulFree<N(!new)>(k: Codec<N>, members: seq<Member<N>>, format: bool, depth: nat)
    requires Printable(k) && MembersNulFree(members)
    ensures 0 !in PrintMembers(k, members, format, depth)
    decreases members, 0
  {
    hide Print, Printable, Quoted;
    if members != [] {
      QuotedNulFree(members[0].key);
      PrintNulFree(k, members[0].value, format, depth);
      MembersPrintNulFree(k, members[1..], format, depth);
    }
  }

  /** Bytes that a value needs behind its text: the NUL, and for all but numbers one that ensure asks for
      without need. */
  function Slack<N>(v: Value<N>): nat {
    if v.Number? then 1 else 2
  }

  class PrintBuffer<N(!new)> {
    const k: Codec<N>
    const noalloc: bool
    const format: bool
    var buffer: array<byte>
    var offset: nat
    var depth: nat

    ghost predicate Valid()
      reads this
    {
      buffer.Length <= INT_MAX && (offset < buffer.Length || (offset == 0 && buffer.Length == 0))
    }

    /** The size the buffer may reach. */
    ghost function Limit(): nat
      reads this
    {
      if noalloc then buffer.Length else INT_MAX
    }

    ghost function Written(): seq<byte>
      reads this, buffer
      requires Valid()
    {
      buffer[..offset]
    }

    /** full stands in the buffer, ended by a NUL, and the offset is not behind its end. */
    ghost predicate Ends(full: seq<byte>)
      reads this, buffer
    {
      offset <= |full| < buffer.Length && buffer[..|full|] == full && buffer[|full|] == 0
    }

    constructor (k: Codec<N>, noalloc: bool, format: bool, buffer: array<byte>)
      ensures this.k == k && this.noalloc == noalloc && this.format == format && this.buffer == buffer
      ensures offset == 0 && depth == 0
    {
      this.k, this.noalloc, this.format, this.buffer := k, noalloc, format, buffer;
      offset, depth := 0, 0;
    }

    /** ensure: room for needed bytes and one more behind the offset; the text so far stays. */
    method Ensure(needed: nat) returns (ok: bool)
      requires Valid()
      modifies this`buffer
      ensures ok <==> offset + needed + 1 <= Limit()
      ensures ok ==> Valid() && offset + needed < buffer.Length && Written() == old(Written())
      ensures Limit() == old(Limit()) && (buffer == old(buffer) || (!noalloc && fresh(buffer))) && (!ok ==> buffer == old(buffer))
    {
      if buffer.Length > 0 && offset >= buffer.Length {
        return false;
      }
      if needed > INT_MAX {
        return false;
      }
      var total := needed + offset + 1;
      if total <= buffer.Length {
        return true;
      }
      if noalloc {
        return false;
      }
      var size;
      if total > INT_MAX / 2 {
        if total > INT_MAX {
          return false;
        }
        size := INT_MAX;
      } else {
        size := total * 2;
      }
      var bigger := new byte[size];
      forall i | 0 <= i < buffer.Length {
        bigger[i] := buffer[i];
      }
      assert bigger[..offset] == buffer[..offset];
      buffer := bigger;
      return true;
    }

    /** One piece of text: announced as needed bytes, copied, ended by a NUL if the source does so, and passed over
        if the source moves the offset itself. */
    method Put(needed: nat, t: seq<byte>, nul: bool, move: bool) returns (ok: bool)
      requires Valid() && |t| <= needed
      modifies this`buffer, this`offset, buffer
      ensures ok <==> old(offset) + needed + 1 <= old(Limit())
      ensures ok ==> Valid() && offset == old(offset) + (if move then |t| else 0)
      ensures ok ==> old(offset) + |t| < buffer.Length && buffer[..old(offset) + |t|] == old(Written()) + t
      ensures ok && nul ==> buffer[old(offset) + |t|] == 0
      ensures Limit() == old(Limit()) && (buffer == old(buffer) || (!noalloc && fresh(buffer)))
    {
      ok := Ensure(needed);
      if ok {
        var end := Copy(buffer, offset, t);
        if nul {
          buffer[end] := 0;
        }
        if move {
          offset := end;
        }
      }
    }

    /** A piece that ends its text. */
    method PutLast(needed: nat, t: seq<byte>) returns (ok: bool)
      requires Valid() && |t| <= needed
      modifies this`buffer, this`offset, buffer
      ensures ok <==> old(offset) + needed + 1 <= old(Limit())
      ensures ok ==> Valid() && Ends(old(Written()) + t) && offset >= old(offset)
      ensures Limit() == old(Limit()) && (buffer == old(buffer) || (!noalloc && fresh(buffer)))
    {
      ok := Put(needed, t, true, false);
    }

    /** A piece behind which printing goes on. */
    method PutNext(needed: nat, t: seq<byte>, nul: bool) returns (ok: bool)
      requires Valid() && |t| <= needed
      modifies this`buffer, this`offset, buffer
      ensures ok <==> old(offset) + needed + 1 <= old(Limit())
      ensures ok ==> Valid() && Written() == old(Written()) + t
      ensures Limit() == old(Limit()) && (buffer == old(buffer) || (!noalloc && fresh(buffer)))
    {
      ok := Put(needed, t, nul, true);
    }

    /** update_offset: on to the NUL. */
    method UpdateOffset(ghost full: seq<byte>)
      requires Ends(full) && Valid() && 0 !in full[offset..]
      modifies this`offset
      ensures Valid() && Written() == full
    {
      forall i | offset <= i < |full| ensures buffer[i] != 0 {
        assert full[i] == full[offset..][i - offset] && buffer[..|full|][i] == full[i];
      }
      while buffer[offset] != 0
        invariant Ends(full) && forall i :: offset <= i < |full| ==> buffer[i] != 0
        decreases |full| - offset
      {
        offset := offset + 1;
      }
    }

    /** print_value: it fails exactly when the text and its slack do not fit; otherwise the text stands behind
        what was written before, ended by a NUL. */
    method PrintValue(v: Value<N>) returns (ok: bool)
      requires Valid() && Printable(k) && NulFree(v)
      modifies this`buffer, this`offset, this`depth, buffer
      ensures ok <==> old(offset) + |Print(k, v, format, old(depth))| + Slack(v) <= old(Limit())
      ensures ok ==> Valid() && depth == old(depth) && offset >= old(offset) && Ends(old(Written()) + Print(k, v, format, depth))
      ensures Limit() == old(Limit()) && (buffer == old(buffer) || (!noalloc && fresh(buffer)))
      decreases v, 2
    {
      hide Printable, ItemsNulFree, MembersNulFree;
      match v
      case Null => ok := PutLast(5, NULL);
      case Bool(b) =>
        if b {
          ok := PutLast(5, TRUE);
        } else {
          ok := PutLast(6, FALSE);
        }
      case Number(n) => ok := PrintNumber(n);
      case Str(t) => ok := PrintText(t);
      case Arr(items) => ok := PrintArray(items);
      case Obj(members) => ok := PrintObject(members);
    }

    /** print_number. */
    method PrintNumber(n: N) returns (ok: bool)
      requires Valid() && Printable(k)
      modifies this`buffer, this`offset, buffer
      ensures ok <==> old(offset) + |k.show(n)| + 1 <= old(Limit())
      ensures ok ==> Valid() && Ends(old(Written()) + k.show(n)) && offset >= old(offset)
      ensures Limit() == old(Limit()) && (buffer == old(buffer) || (!noalloc && fresh(buffer)))
    {
      var t := k.show(n);
      assert |t| <= 25;
      ok := Put(|t|, t, true, true);
    }

    /** print_string_ptr. */
    method PrintText(t: seq<byte>) returns (ok: bool)
      requires Valid()
      modifies this`buffer, this`offset, buffer
      ensures ok <==> old(offset) + |Quoted(t)| + 2 <= old(Limit())
      ensures ok ==> Valid() && Ends(old(Written()) + Quoted(t)) && offset >= old(offset)
      ensures Limit() == old(Limit()) && (buffer == old(buffer) || (!noalloc && fresh(buffer)))
    {
      var escapes := CountEscapes(t);
      var length := |t| + escapes;
      hide Escape;
      ok := Ensure(length + 3);
      if ok {
        WriteQuoted(t, escapes);
      }
    }

    /** The quotes and what stands between them, copied as it is or escaped on the way. */
    method WriteQuoted(t: seq<byte>, escapes: nat)
      requires Valid() && |t| + escapes == |Escape(t)| && offset + |Escape(t)| + 2 < buffer.Length
      modifies buffer
      ensures Ends(old(Written()) + Quoted(t))
    {
      hide Escape;
      NothingToEscape(t);
      ghost var w := Written();
      var end := Copy(buffer, offset, [QUOTE]);
      if escapes == 0 {
        end := Copy(buffer, end, t);
      } else {
        end := CopyEscaped(t, buffer, end);
      }
      assert buffer[..end] == (w + [QUOTE]) + Escape(t);
      end := Copy(buffer, end, [QUOTE]);
      buffer[end] := 0;
      Regroup4(w, [QUOTE], Escape(t), [QUOTE]);
      assert ((w + [QUOTE]) + Escape(t)) + [QUOTE] == w + Quoted(t);
    }

    /** A value and the offset moved behind it. */
    method PrintInner(v: Value<N>) returns (ok: bool)
      requires Valid() && Printable(k) && NulFree(v)
      modifies this`buffer, this`offset, this`depth, buffer
      ensures ok <==> old(offset) + |Print(k, v, format, old(depth))| + Slack(v) <= old(Limit())
      ensures ok ==> Valid() && depth == old(depth) && Written() == old(Written()) + Print(k, v, format, depth)
      ensures Limit() == old(Limit()) && (buffer == old(buffer) || (!noalloc && fresh(buffer)))
      decreases v, 3
    {
      PrintNulFree(k, v, format, depth);
      ghost var w, t := Written(), Print(k, v, format, depth);
      hide Print, NulFree, Printable, Slack;
      ok := PrintValue(v);
      if ok {
        NoNulBehind(w, t, offset);
        UpdateOffset(w + t);
      }
    }

    // ---------- arrays ----------

    /** print_array. */
    method PrintArray(items: seq<Value<N>>) returns (ok: bool)
      requires Valid() && Printable(k) && ItemsNulFree(items)
      modifies this`buffer, this`offset, this`depth, buffer
      ensures ok <==> old(offset) + |ArrayText(items, old(depth))| + 2 <= old(Limit())
      ensures ok ==> Valid() && depth == old(depth) && offset >= old(offset) && Ends(old(Written()) + ArrayText(items, depth))
      ensures Limit() == old(Limit()) && (buffer == old(buffer) || (!noalloc && fresh(buffer)))
      decreases items, 1
    {
      ghost var w, inner := Written(), PrintItems(k, items, format, depth + 1);
      hide PrintItems, Printable, ItemsNulFree;
      ok := PutNext(1, [OPEN_ARRAY], false);
      if !ok {
        return;
      }
      depth := depth + 1;
      ok := PrintItemsAt(items);
      if !ok {
        return;
      }
      Regroup(w, [OPEN_ARRAY], inner, [CLOSE_ARRAY]);
      ok := PutLast(2, [CLOSE_ARRAY]);
      depth := depth - 1;
    }

    ghost function ArrayText(items: seq<Value<N>>, d: nat): seq<byte> {
      [OPEN_ARRAY] + (PrintItems(k, items, format, d + 1) + [CLOSE_ARRAY])
    }

    /** The loop of print_array. */
    method PrintItemsAt(items: seq<Value<N>>) returns (ok: bool)
      requires Valid() && Printable(k) && ItemsNulFree(items)
      modifies this`buffer, this`offset, this`depth, buffer
      ensures !ok ==> old(offset) + |PrintItems(k, items, format, old(depth))| + 3 > old(Limit())
      ensures ok ==> Valid() && depth == old(depth) && Written() == old(Written()) + PrintItems(k, items, format, depth)
      ensures Limit() == old(Limit()) && (buffer == old(buffer) || (!noalloc && fresh(buffer)))
      decreases items, 0
    {
      ghost var w, d := Written(), depth;
      hide Print, PrintItems, Printable, NulFree, ItemsNulFree;
      ok := true;
      var i := 0;
      assert items[0..] == items;
      while i < |items|
        invariant i <= |items| && Valid() && depth == d && ItemsNulFree(items[i..])
        invariant Written() + PrintItems(k, items[i..], format, d) == w + PrintItems(k, items, format, d)
        invariant Limit() == old(Limit()) && (buffer == old(buffer) || (!noalloc && fresh(buffer)))
      {
        ghost var w1, piece, rest := Written(), ItemText(items[i], i + 1 == |items|, d), PrintItems(k, items[i + 1..], format, d);
        ItemsUnfold(items, i, d);
        Assoc(w1, piece, rest);
        ok := PrintItem(items[i], i + 1 == |items|);
        if !ok {
          return;
        }
        i := i + 1;
      }
      NoItems(items[i..], d);
    }

    ghost function ItemText(v: Value<N>, last: bool, d: nat): seq<byte> {
      Print(k, v, format, d) + If(!last, [COMMA] + If(format, [SPACE]))
    }

    lemma NoItems(items: seq<Value<N>>, d: nat)
      requires items == []
      ensures PrintItems(k, items, format, d) == []
    {
    }

    lemma ItemsUnfold(items: seq<Value<N>>, i: nat, d: nat)
      requires i < |items| && ItemsNulFree(items[i..])
      ensures NulFree(items[i]) && ItemsNulFree(items[i + 1..])
      ensures PrintItems(k, items[i..], format, d) == ItemText(items[i], i + 1 == |items|, d) + PrintItems(k, items[i + 1..], format, d)
    {
      hide Print, NulFree;
      assert items[i..][1..] == items[i + 1..];
      if i + 1 == |items| { NoItems(items[i + 1..], d); }
      Regroup4(Print(k, items[i], format, d), [COMMA], If(format, [SPACE]), PrintItems(k, items[i + 1..], format, d));
    }

    /** One element, and the comma if there is another one. */
    method PrintItem(v: Value<N>, last: bool) returns (ok: bool)
      requires Valid() && Printable(k) && NulFree(v)
      modifies this`buffer, this`offset, this`depth, buffer
      ensures !ok ==> old(offset) + |ItemText(v, last, old(depth))| + 3 > old(Limit())
      ensures ok ==> Valid() && depth == old(depth) && Written() == old(Written()) + ItemText(v, last, depth)
      ensures Limit() == old(Limit()) && (buffer == old(buffer) || (!noalloc && fresh(buffer)))
      decreases v, 4
    {
      ghost var w, t := Written(), Print(k, v, format, depth);
      hide Print, Printable, NulFree;
      ok := PrintInner(v);
      if ok && !last {
        var comma := [COMMA] + If(format, [SPACE]);
        Assoc(w, t, comma);
        ok := PutNext(|comma| + 1, comma, true);
      }
    }

    // ---------- objects ----------

    /** print_object. */
    method PrintObject(members: seq<Member<N>>) returns (ok: bool)
      requires Valid() && Printable(k) && MembersNulFree(members)
      modifies this`buffer, this`offset, this`depth, buffer
      ensures ok <==> old(offset) + |ObjectText(members, old(depth))| + 2 <= old(Limit())
      ensures ok ==> Valid() && depth == old(depth) && offset >= old(offset) && Ends(old(Written()) + ObjectText(members, depth))
      ensures Limit() == old(Limit()) && (buffer == old(buffer) || (!noalloc && fresh(buffer)))
      decreases members, 2
    {
      ghost var w, body := Written(), BodyText(members, depth);
      var open := [OPEN_OBJECT] + If(format, [NEWLINE]);
      assert ObjectText(members, depth) == [OPEN_OBJECT] + (If(format, [NEWLINE]) + body);
      Parts(w, [OPEN_OBJECT], If(format, [NEWLINE]), body);
      BodyNotEmpty(members, depth);
      hide *;
      ok := PutNext(|open| + 1, open, false);
      if !ok {
        return;
      }
      depth := depth + 1;
      ok := PrintBody(members);
    }

    /** The members and the closing brace. */
    method PrintBody(members: seq<Member<N>>) returns (ok: bool)
      requires Valid() && Printable(k) && MembersNulFree(members) && depth > 0
      modifies this`buffer, this`offset, this`depth, buffer
      ensures ok <==> old(offset) + |BodyText(members, old(depth) - 1)| + 2 <= old(Limit())
      ensures ok ==> Valid() && depth == old(depth) - 1 && offset >= old(offset) && Ends(old(Written()) + BodyText(members, depth))
      ensures Limit() == old(Limit()) && (buffer == old(buffer) || (!noalloc && fresh(buffer)))
      decreases members, 1
    {
      ghost var w, inner := Written(), PrintMembers(k, members, format, depth);
      var close := If(format, Tabs(depth - 1)) + [CLOSE_OBJECT];
      assert BodyText(members, depth - 1) == inner + close;
      CloseFits(format, depth - 1);
      Assoc(w, inner, close);
      hide Print, PrintMembers, Printable, MembersNulFree, If, Tabs, BodyText;
      ok := PrintMembersAt(members);
      if !ok {
        return;
      }
      ok := PutLast(if format then depth + 1 else 2, close);
      depth := depth - 1;
    }

    ghost function BodyText(members: seq<Member<N>>, d: nat): seq<byte> {
      PrintMembers(k, members, format, d + 1) + (If(format, Tabs(d)) + [CLOSE_OBJECT])
    }

    lemma BodyNotEmpty(members: seq<Member<N>>, d: nat)
      ensures |BodyText(members, d)| >= 1
    {
    }

    ghost function ObjectText(members: seq<Member<N>>, d: nat): seq<byte> {
      [OPEN_OBJECT] + (If(format, [NEWLINE]) + (PrintMembers(k, members, format, d + 1) + (If(format, Tabs(d)) + [CLOSE_OBJECT])))
    }

    /** The loop of print_object. */
    method PrintMembersAt(members: seq<Member<N>>) returns (ok: bool)
      requires Valid() && Printable(k) && MembersNulFree(members)
      modifies this`buffer, this`offset, this`depth, buffer
      ensures !ok ==> old(offset) + |PrintMembers(k, members, format, old(depth))| + 3 > old(Limit())
      ensures ok ==> Valid() && depth == old(depth) && Written() == old(Written()) + PrintMembers(k, members, format, depth)
      ensures Limit() == old(Limit()) && (buffer == old(buffer) || (!noalloc && fresh(buffer)))
      decreases members, 0
    {
      ghost var w, d := Written(), depth;
      hide Print, PrintMembers, Printable, MembersNulFree, MemberText;
      ok := true;
      var i := 0;
      assert members[0..] == members;
      while i < |members|
        invariant i <= |members| && Valid() && depth == d && MembersNulFree(members[i..])
        invariant Written() + PrintMembers(k, members[i..], format, d) == w + PrintMembers(k, members, format, d)
        invariant Limit() == old(Limit()) && (buffer == old(buffer) || (!noalloc && fresh(buffer)))
      {
        ghost var w1, piece, rest := Written(), MemberText(members[i], i + 1 == |members|, d), PrintMembers(k, members[i + 1..], format, d);
        MembersUnfold(members, i, d);
        Assoc(w1, piece, rest);
        ok := PrintMember(members[i], i + 1 == |members|);
        if !ok {
          return;
        }
        i := i + 1;
      }
      NoMembers(members[i..], d);
    }

    ghost function NameText(key: seq<byte>, d: nat): seq<byte> {
      If(format, Tabs(d)) + (Quoted(key) + ([COLON] + If(format, [TAB])))
    }

    ghost function MemberText(m: Member<N>, last: bool, d: nat): seq<byte> {
      NameText(m.key, d) + (Print(k, m.value, format, d) + (If(!last, [COMMA]) + If(format, [NEWLINE])))
    }

    lemma NoMembers(members: seq<Member<N>>, d: nat)
      requires members == []
      ensures PrintMembers(k, members, format, d) == []
    {
    }

    lemma MembersUnfold(members: seq<Member<N>>, i: nat, d: nat)
      requires i < |members| && MembersNulFree(members[i..])
      ensures 0 !in members[i].key && NulFree(members[i].value) && MembersNulFree(members[i + 1..])
      ensures PrintMembers(k, members[i..], format, d)
           == MemberText(members[i], i + 1 == |members|, d) + PrintMembers(k, members[i + 1..], format, d)
    {
      var s, rest, m := members[i..], members[i + 1..], members[i];
      assert s[1..] == rest && s[0] == m && (|s| > 1 <==> i + 1 != |members|);
      MembersParts(If(format, Tabs(d)), Quoted(m.key), [COLON], If(format, [TAB]), Print(k, m.value, format, d),
                   If(i + 1 != |members|, [COMMA]), If(format, [NEWLINE]), PrintMembers(k, rest, format, d));
      hide Print, NulFree, Quoted, If;
    }

    /** One member, from its indentation to the line break behind it. */
    method PrintMember(m: Member<N>, last: bool) returns (ok: bool)
      requires Valid() && Printable(k) && 0 !in m.key && NulFree(m.value)
      modifies this`buffer, this`offset, this`depth, buffer
      ensures !ok ==> old(offset) + |MemberText(m, last, old(depth))| + 3 > old(Limit())
      ensures ok ==> Valid() && depth == old(depth) && Written() == old(Written()) + MemberText(m, last, depth)
      ensures Limit() == old(Limit()) && (buffer == old(buffer) || (!noalloc && fresh(buffer)))
      decreases m, 0
    {
      ghost var w, name, t := Written(), NameText(m.key, depth), Print(k, m.value, format, depth);
      hide Print, Printable, NulFree, NameText;
      ok := PrintName(m.key);
      if !ok {
        return;
      }
      ok := PrintInner(m.value);
      if !ok {
        return;
      }
      var after := If(!last, [COMMA]) + If(format, [NEWLINE]);
      Regroup(w, name, t, after);
      ok := PutNext(|after| + 1, after, true);
    }

    /** The indentation, the name and the colon. */
    method PrintName(key: seq<byte>) returns (ok: bool)
      requires Valid() && 0 !in key
      modifies this`buffer, this`offset, buffer
      ensures !ok ==> old(offset) + |NameText(key, depth)| + 1 > old(Limit())
      ensures ok ==> Valid() && Written() == old(Written()) + NameText(key, depth)
      ensures Limit() == old(Limit()) && (buffer == old(buffer) || (!noalloc && fresh(buffer)))
    {
      ghost var w, tabs, q := Written(), If(format, Tabs(depth)), Quoted(key);
      hide Quoted;
      QuotedNulFree(key);
      ok := true;
      if format {
        ok := PutNext(depth, Tabs(depth), false);
        if !ok {
          return;
        }
      }
      assert Written() == w + tabs;
      ok := PrintText(key);
      if !ok {
        return;
      }
      NoNulBehind(w + tabs, q, offset);
      UpdateOffset((w + tabs) + q);
      var colon := [COLON] + If(format, [TAB]);
      Regroup(w, tabs, q, colon);
      ok := PutNext(|colon|, colon, false);
    }

    /** cJSON_PrintPreallocated: the given buffer is enough exactly when it holds the text and its slack. */
    static method PrintPreallocated(k: Codec<N>, v: Value<N>, buf: array<byte>, format: bool) returns (ok: bool)
      requires Printable(k) && NulFree(v) && buf.Length <= INT_MAX
      modifies buf
      ensures var t := Print(k, v, format, 0);
        && (ok <==> |t| + Slack(v) <= buf.Length)
        && (ok ==> buf[..|t|] == t && buf[|t|] == 0)
    {
      var p := new PrintBuffer<N>(k, true, format, buf);
      hide Print, NulFree, Printable;
      ok := p.PrintValue(v);
    }

    /** print: the text, which may take up to INT_MAX bytes with its slack. */
    static method PrintGrowing(k: Codec<N>, v: Value<N>, format: bool) returns (ok: bool, t: seq<byte>)
      requires Printable(k) && NulFree(v)
      ensures ok <==> |Print(k, v, format, 0)| + Slack(v) <= INT_MAX
      ensures ok ==> t == Print(k, v, format, 0)
    {
      var none := new byte[0];
      var p := new PrintBuffer<N>(k, false, format, none);
      hide Print, NulFree, Printable;
      t := [];
      ok := p.PrintInner(v);
      if ok {
        t := p.buffer[..p.offset];
      }
    }
  }

  lemma NoNulBehind(w: seq<byte>, t: seq<byte>, at: nat)
    requires 0 !in t && |w| <= at <= |w + t|
    ensures 0 !in (w + t)[at..]
  {
    assert (w + t)[at..] == t[at - |w|..];
  }

  lemma Regroup(a: seq<byte>, b: seq<byte>, c: seq<byte>, d: seq<byte>)
    ensures ((a + b) + c) + d == a + (b + (c + d))
  {
  }

  lemma Regroup4(a: seq<byte>, b: seq<byte>, c: seq<byte>, d: seq<byte>)
    ensures a + (b + (c + d)) == (a + (b + c)) + d
  {
  }

  lemma CloseFits(format: bool, depth: nat)
    ensures |If(format, Tabs(depth)) + [CLOSE_OBJECT]| + 1 == if format then depth + 2 else 2
  {
  }

  lemma Parts(w: seq<byte>, a: seq<byte>, b: seq<byte>, c: seq<byte>)
    ensures (w + (a + b)) + c == w + (a + (b + c))
  {
  }

  lemma MembersParts(a: seq<byte>, b: seq<byte>, c: seq<byte>, d: seq<byte>, e: seq<byte>, f: seq<byte>, g: seq<byte>, h: seq<byte>)
    ensures a + (b + (c + (d + (e + (f + (g + h)))))) == ((a + (b + (c + d))) + (e + (f + g))) + h
  {
    Assoc(f, g, h);
    Assoc(e, f + g, h);
    Regroup4(b, c, d, e + (f + g) + h);
    Assoc(a, b + (c + d), (e + (f + g)) + h);
    Assoc(a + (b + (c + d)), e + (f + g), h);
  }

  /** cJSON_Print or cJSON_PrintUnformatted and then cJSON_Parse: the value comes back, and the whole text is
      used, exactly when at most 1000 containers nest. */
  method PrintAndParse<N(!new)>(k: Codec<N>, v: Value<N>, format: bool)
    returns (printed: bool, t: seq<byte>, parsed: bool, w: Value<N>, end: nat)
    requires Inverts(k) && Printable(k) && NulFree(v)
    ensures printed <==> |Print(k, v, format, 0)| + Slack(v) <= INT_MAX
    ensures parsed <==> printed && Depth(v) <= 1000
    ensures parsed ==> t == Print(k, v, format, 0) && w == v && end == |t|
  {
    hide *;
    printed, t := PrintBuffer<N>.PrintGrowing(k, v, format);
    parsed, w, end := false, v, 0;
    if printed {
      JsonGrammar.RoundTrip(k, v, format);
      parsed, w, end := JsonParser.ParseDocument(k, t);
    }
  }
}
