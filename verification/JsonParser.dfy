/** The parser of framework/cJSON.c as it runs: a cursor and a depth that every call moves. */
module JsonParser {
  import opened Wrappers
  import opened Bytes
  import opened JsonText
  import opened Json

  /** The elements read so far followed by those still to come. */
  ghost function Join<T>(done: seq<T>, rest: Option<Read<seq<T>>>): Option<Read<seq<T>>> {
    if rest.None? then None else Some(Read(done + rest.value.value, rest.value.rest))
  }

  lemma JoinNext<T>(done: seq<T>, v: T, rest: Option<Read<seq<T>>>)
    ensures Join(done, Prepend(v, rest)) == Join(done + [v], rest)
  {
    if rest.Some? { assert done + ([v] + rest.value.value) == (done + [v]) + rest.value.value; }
  }

  lemma JoinNone<T>(rest: Option<Read<seq<T>>>)
    ensures Join([], rest) == rest
  {
    if rest.Some? { assert [] + rest.value.value == rest.value.value; }
  }

  lemma SkipAgain(s: seq<byte>)
    ensures Skip(Skip(s)) == Skip(s)
  {
  }

  /** parse_buffer over a NUL-terminated text. */
  class ParseBuffer<!N> {
    const k: Codec<N>
    const content: seq<byte>
    var offset: nat
    var depth: nat

    ghost predicate Valid()
      reads this
    {
      offset < |content| && content[|content| - 1] == 0
    }

    ghost function Left(): seq<byte>
      requires Valid()
      reads this
    {
      content[offset..]
    }

    constructor (k: Codec<N>, text: seq<byte>)
      ensures Valid() && this.k == k && content == text + [0] && offset == 0 && depth == 0
    {
      this.k, content, offset, depth := k, text + [0], 0, 0;
    }

    method SkipWhitespace()
      requires Valid()
      modifies this`offset
      ensures Valid() && offset >= old(offset) && Left() == Skip(old(Left()))
    {
      while offset < |content| && content[offset] <= 32
        invariant old(offset) <= offset <= |content|
        invariant Skip(old(Left())) == Skip(if offset < |content| then content[offset..] else [0])
      {
        assert content[offset..][1..] == content[offset + 1..];
        if offset == |content| - 1 { assert content[offset..] == [0]; }
        offset := offset + 1;
      }
      if offset == |content| {
        offset := offset - 1;
        assert content[offset..] == [0];
      }
    }

    /** One byte that is not the terminator is behind the cursor now. */
    method Advance(n: nat)
      requires Valid() && offset + n < |content|
      modifies this`offset
      ensures Valid() && offset == old(offset) + n && Left() == old(Left())[n..]
    {
      offset := offset + n;
    }

    /** strncmp of the text at the cursor with a word that holds no NUL */
    method Sees(word: seq<byte>) returns (yes: bool)
      requires Valid() && word != [] && 0 !in word
      ensures yes <==> word <= Left()
      ensures yes ==> offset + |word| < |content|
    {
      yes := offset + |word| <= |content| && content[offset..offset + |word|] == word;
      if yes {
        assert content[offset + |word| - 1] == word[|word| - 1];
        assert word[|word| - 1] in word;
      }
    }

    ghost predicate Answers<T>(ok: bool, v: T, r: Option<Read<T>>)
      reads this
    {
      (ok <==> r.Some?) && (ok ==> Valid() && r == Some(Read(v, Left())))
    }

    method ParseNumberAt() returns (ok: bool, v: Value<N>)
      requires Valid()
      modifies this`offset
      ensures Answers(ok, v, ParseNumber(k, old(Left())))
      ensures ok ==> offset > old(offset)
    {
      var i := 0;
      var s := content[offset..];
      assert s[0..] == s;
      while i < 63 && offset + i < |content| && NumberChar(content[offset + i])
        invariant 0 <= i <= 63 && offset + i < |content|
        invariant Run(s, 63) == i + Run(s[i..], 63 - i)
      {
        assert s[i..][1..] == s[i + 1..];
        i := i + 1;
      }
      assert Run(s[i..], 63 - i) == 0;
      assert content[offset..offset + i] == s[..i];
      match k.scan(content[offset..offset + i])
      case None => return false, Null;
      case Some(Scanned(n, used)) =>
        if 0 < used <= i {
          Advance(used);
          return true, Number(n);
        }
        return false, Null;
    }

    method ParseTextAt() returns (ok: bool, t: seq<byte>)
      requires Valid()
      modifies this`offset
      ensures Answers(ok, t, ParseText(old(Left())))
      ensures ok ==> offset > old(offset)
    {
      var s := content[offset..];
      var found, out, len, end := ReadString(s, 0);
      if !found {
        return false, [];
      }
      TextStopsEarly(s);
      Advance(end);
      return true, out[..len];
    }

    /** What ParseItems makes of an element and of the byte at the cursor behind it. */
    ghost function AfterItem(item: Value<N>, d: nat): Option<Read<seq<Value<N>>>>
      requires Valid()
      reads this
    {
      if content[offset] == COMMA then Prepend(item, ParseItems(k, content[offset + 1..], d))
      else if content[offset] == CLOSE_ARRAY then Some(Read([item], content[offset + 1..]))
      else None
    }

    ghost function AfterMember(m: Member<N>, d: nat): Option<Read<seq<Member<N>>>>
      requires Valid()
      reads this
    {
      if content[offset] == COMMA then Prepend(m, ParseMembers(k, content[offset + 1..], d))
      else if content[offset] == CLOSE_OBJECT then Some(Read([m], content[offset + 1..]))
      else None
    }

    /** One turn of the loop of parse_array, from the bracket or comma to the byte behind the element. */
    method ParseItemAt() returns (ok: bool, item: Value<N>)
      requires Valid() && offset + 1 < |content|
      modifies this
      ensures !ok ==> ParseItems(k, content[old(offset) + 1..], old(depth)).None?
      ensures ok ==> Valid() && offset > old(offset) && depth == old(depth)
      ensures ok ==> ParseItems(k, content[old(offset) + 1..], depth) == AfterItem(item, depth)
      decreases |content| - offset, 0
    {
      hide Parse, Skip;
      ghost var s := content[offset + 1..];
      Advance(1);
      SkipWhitespace();
      ok, item := ParseValueAt();
      if ok {
        SkipWhitespace();
        assert Left()[1..] == content[offset + 1..];
      }
    }

    /** parse_array behind its bracket, when the array is not empty. */
    method ParseItemsAt() returns (ok: bool, items: seq<Value<N>>)
      requires Valid() && offset + 1 < |content|
      modifies this
      ensures Answers(ok, items, ParseItems(k, content[old(offset) + 1..], old(depth)))
      ensures ok ==> offset > old(offset) && depth == old(depth)
      decreases |content| - offset, 1
    {
      hide ParseItems;
      ghost var s := content[offset + 1..];
      items := [];
      var item;
      ok, item := ParseItemAt();
      if ok { JoinNone(AfterItem(item, depth)); }
      while ok && content[offset] == COMMA
        invariant ok ==> Valid() && offset > old(offset) && depth == old(depth)
        invariant ok ==> ParseItems(k, s, depth) == Join(items, AfterItem(item, depth))
        invariant !ok ==> ParseItems(k, s, old(depth)).None?
        decreases ok, |content| - offset
      {
        JoinNext(items, item, ParseItems(k, content[offset + 1..], depth));
        items := items + [item];
        ok, item := ParseItemAt();
      }
      if ok && content[offset] == CLOSE_ARRAY {
        Advance(1);
        items := items + [item];
      } else {
        ok := false;
      }
    }

    /** The name of a member and its colon. */
    method ParseNameAt() returns (ok: bool, name: seq<byte>)
      requires Valid()
      modifies this`offset
      ensures Answers(ok, name, ParseName(old(Left())))
      ensures ok ==> offset > old(offset)
    {
      hide ParseText, Skip;
      SkipWhitespace();
      ok, name := ParseTextAt();
      if ok {
        SkipWhitespace();
        if content[offset] == COLON {
          Advance(1);
        } else {
          ok := false;
        }
      }
    }

    /** One turn of the loop of parse_object, from the brace or comma to the byte behind the value. */
    method ParseMemberAt() returns (ok: bool, m: Member<N>)
      requires Valid() && offset + 1 < |content|
      modifies this
      ensures !ok ==> ParseMembers(k, content[old(offset) + 1..], old(depth)).None?
      ensures ok ==> Valid() && offset > old(offset) && depth == old(depth)
      ensures ok ==> ParseMembers(k, content[old(offset) + 1..], depth) == AfterMember(m, depth)
      decreases |content| - offset, 0
    {
      hide Parse, ParseName, Skip;
      m := Member([], Null);
      ghost var s := content[offset + 1..];
      Advance(1);
      var named, name := ParseNameAt();
      if !named {
        return false, m;
      }
      SkipWhitespace();
      var v;
      ok, v := ParseValueAt();
      if ok {
        SkipWhitespace();
        assert Left()[1..] == content[offset + 1..];
        m := Member(name, v);
      }
    }

    /** parse_object behind its brace, when the object is not empty. */
    method ParseMembersAt() returns (ok: bool, members: seq<Member<N>>)
      requires Valid() && offset + 1 < |content|
      modifies this
      ensures Answers(ok, members, ParseMembers(k, content[old(offset) + 1..], old(depth)))
      ensures ok ==> offset > old(offset) && depth == old(depth)
      decreases |content| - offset, 1
    {
      hide ParseMembers;
      ghost var s := content[offset + 1..];
      members := [];
      var m;
      ok, m := ParseMemberAt();
      if ok { JoinNone(AfterMember(m, depth)); }
      while ok && content[offset] == COMMA
        invariant ok ==> Valid() && offset > old(offset) && depth == old(depth)
        invariant ok ==> ParseMembers(k, s, depth) == Join(members, AfterMember(m, depth))
        invariant !ok ==> ParseMembers(k, s, old(depth)).None?
        decreases ok, |content| - offset
      {
        JoinNext(members, m, ParseMembers(k, content[offset + 1..], depth));
        members := members + [m];
        ok, m := ParseMemberAt();
      }
      if ok && content[offset] == CLOSE_OBJECT {
        Advance(1);
        members := members + [m];
      } else {
        ok := false;
      }
    }

    /** Behind a bracket or brace: the blanks, and whether the container is closed right away. If it
        is not, the cursor steps back so that the loop may step over the byte in front of an element. */
    method OpenContainer(close: byte) returns (empty: bool)
      requires Valid() && content[offset] != 0 && close > 32
      modifies this
      ensures Valid() && depth == old(depth) + 1 && offset >= old(offset)
      ensures empty <==> At(Skip(old(Left())[1..]), close)
      ensures empty ==> offset > old(offset) && Left() == Skip(old(Left())[1..])
      ensures !empty ==> offset + 1 < |content| && Skip(content[offset + 1..]) == Skip(old(Left())[1..])
    {
      depth := depth + 1;
      Advance(1);
      ghost var s := Left();
      SkipWhitespace();
      empty := content[offset] == close;
      if !empty {
        SkipAgain(s);
        offset := offset - 1;
      }
    }

    method ParseArrayAt() returns (ok: bool, v: Value<N>)
      requires Valid() && content[offset] == OPEN_ARRAY
      modifies this
      ensures Answers(ok, v, Parse(k, old(Left()), old(depth)))
      ensures ok ==> offset > old(offset) && depth == old(depth)
      decreases |content| - offset, 2
    {
      hide Parse, ParseItems, Skip;
      ContainerCase(k, Left(), depth);
      v := Null;
      if depth >= NESTING_LIMIT {
        return false, v;
      }
      ghost var s := Left()[1..];
      var empty := OpenContainer(CLOSE_ARRAY);
      var items: seq<Value<N>> := [];
      ok := true;
      if empty {
        Advance(1);
      } else {
        ItemsSkip(k, s, content[offset + 1..], depth);
        ok, items := ParseItemsAt();
      }
      if ok {
        depth := depth - 1;
        v := Arr(items);
      }
    }

    method ParseObjectAt() returns (ok: bool, v: Value<N>)
      requires Valid() && content[offset] == OPEN_OBJECT
      modifies this
      ensures Answers(ok, v, Parse(k, old(Left()), old(depth)))
      ensures ok ==> offset > old(offset) && depth == old(depth)
      decreases |content| - offset, 2
    {
      hide Parse, ParseMembers, Skip;
      ContainerCase(k, Left(), depth);
      v := Null;
      if depth >= NESTING_LIMIT {
        return false, v;
      }
      ghost var s := Left()[1..];
      var empty := OpenContainer(CLOSE_OBJECT);
      var members: seq<Member<N>> := [];
      ok := true;
      if empty {
        Advance(1);
      } else {
        MembersSkip(k, s, content[offset + 1..], depth);
        ok, members := ParseMembersAt();
      }
      if ok {
        depth := depth - 1;
        v := Obj(members);
      }
    }

    /** parse_value: the word, string, number or container at the cursor. */
    method ParseValueAt() returns (ok: bool, v: Value<N>)
      requires Valid()
      modifies this
      ensures Answers(ok, v, Parse(k, old(Left()), old(depth)))
      ensures ok ==> offset > old(offset) && depth == old(depth)
      decreases |content| - offset, 3
    {
      hide ParseItems, ParseMembers, ParseText, ParseNumber, Skip;
      var isNull := Sees(NULL);
      if isNull {
        Advance(4);
        return true, Null;
      }
      var isFalse := Sees(FALSE);
      if isFalse {
        Advance(5);
        return true, Bool(false);
      }
      var isTrue := Sees(TRUE);
      if isTrue {
        Advance(4);
        return true, Bool(true);
      }
      v := Null;
      if content[offset] == QUOTE {
        var t;
        ok, t := ParseTextAt();
        v := Str(t);
      } else if content[offset] == 45 || 48 <= content[offset] <= 57 {
        ok, v := ParseNumberAt();
      } else if content[offset] == OPEN_ARRAY {
        ok, v := ParseArrayAt();
      } else if content[offset] == OPEN_OBJECT {
        ok, v := ParseObjectAt();
      } else {
        ok := false;
      }
    }
  }

  /** cJSON_Parse: a fresh cursor, the leading blanks, one value. Together with JsonGrammar.RoundTrip
      this is what the program does with text that it printed itself. */
  method ParseDocument<N>(k: Codec<N>, text: seq<byte>) returns (ok: bool, v: Value<N>, end: nat)
    ensures var r := Parse(k, Skip(text + [0]), 0);
            (ok <==> r.Some?) && (ok ==> end <= |text| && r == Some(Read(v, (text + [0])[end..])))
  {
    var b := new ParseBuffer(k, text);
    assert b.Left() == text + [0];
    b.SkipWhitespace();
    ok, v := b.ParseValueAt();
    end := b.offset;
  }

  /** A string literal cannot swallow the terminator. */
  lemma TextStopsEarly(s: seq<byte>)
    requires s != [] && s[|s| - 1] == 0 && ParseString(s, 0).Some?
    ensures ParseString(s, 0).value.offset < |s|
  {
  }
}
