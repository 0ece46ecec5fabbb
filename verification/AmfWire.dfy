/** AMF3 messages as clients write them: a string that was sent before may be a reference to its place among the
    strings of the message. framework/amf.c reads such messages but never writes them. */
module AmfWire {
  import opened Wrappers
  import opened Sequences
  import opened Bytes
  import opened Amf

  /** How a tree is written: a value that is no array as the encoder writes it, a reference to a string, or an array. */
  datatype Wire = Plain(v: Value) | Ref(i: nat) | Items(items: seq<Wire>)

  predicate Writable(w: Wire) {
    match w
    case Plain(v) => Encodable(v) && !v.Arr?
    case Ref(i) => i < 0x1000_0000
    case Items(ws) => |ws| < 0x1000_0000 && forall c :: c in ws ==> Writable(c)
  }

  function Written(w: Wire): seq<byte>
    requires Writable(w)
    decreases w, 1
  {
    match w
    case Plain(v) => Encode(v)
    case Ref(i) => [6] + EncodeU29(2 * i)
    case Items(ws) => [9] + (EncodeU29(2 * |ws| + 1) + ([1] + WrittenAll(ws)))
  }

  function WrittenAll(ws: seq<Wire>): seq<byte>
    requires forall w :: w in ws ==> Writable(w)
    decreases ws, 0
  {
    if ws == [] then [] else Written(ws[0]) + WrittenAll(ws[1..])
  }

  /** The strings written out, in order: what the reader's table grows by. */
  function Literals(w: Wire): seq<seq<byte>>
    decreases w, 1
  {
    match w
    case Plain(v) => if v.Str? then [v.s] else []
    case Ref(_) => []
    case Items(ws) => AllLiterals(ws)
  }

  function AllLiterals(ws: seq<Wire>): seq<seq<byte>>
    decreases ws, 0
  {
    if ws == [] then [] else Literals(ws[0]) + AllLiterals(ws[1..])
  }

  /** Every reference names a string that is in the table by then. */
  predicate Refers(w: Wire, table: seq<seq<byte>>)
    decreases w, 1
  {
    match w
    case Plain(_) => true
    case Ref(i) => i < |table|
    case Items(ws) => AllRefer(ws, table)
  }

  predicate AllRefer(ws: seq<Wire>, table: seq<seq<byte>>)
    decreases ws, 0
  {
    ws == [] || (Refers(ws[0], table) && AllRefer(ws[1..], table + Literals(ws[0])))
  }

  /** The tree that is meant. */
  function Meant(w: Wire, table: seq<seq<byte>>): Value
    requires Refers(w, table)
    decreases w, 1
  {
    match w
    case Plain(v) => v
    case Ref(i) => Str(table[i])
    case Items(ws) => Arr(AllMeant(ws, table))
  }

  function AllMeant(ws: seq<Wire>, table: seq<seq<byte>>): (vs: seq<Value>)
    requires AllRefer(ws, table)
    ensures |vs| == |ws|
    decreases ws, 0
  {
    if ws == [] then [] else [Meant(ws[0], table)] + AllMeant(ws[1..], table + Literals(ws[0]))
  }

  // ---------- one value, byte by byte ----------

  /** A 29-bit number: seven bits a byte, the highest first and marked by the top bit, and eight bits in a fourth
      byte. It is cut short exactly when fewer than four bytes are left and all are marked. */
  lemma U29Bytes(n: uint29, s: seq<byte>)
    ensures var e := EncodeU29(n);
            || (|e| == 1 && n == e[0] < 0x80)
            || (|e| == 2 && e[0] >= 0x80 > e[1] && n == (e[0] as int - 0x80) * 0x80 + e[1])
            || (|e| == 3 && e[0] >= 0x80 && e[1] >= 0x80 > e[2] && n == (e[0] as int - 0x80) * 0x4000 + (e[1] as int - 0x80) * 0x80 + e[2])
            || (|e| == 4 && e[0] >= 0x80 && e[1] >= 0x80 && e[2] >= 0x80
                && n == (e[0] as int - 0x80) * 0x40_0000 + (e[1] as int - 0x80) * 0x8000 + (e[2] as int - 0x80) * 0x100 + e[3])
    ensures DecodeU29(s, 0, 0).None? <==> |s| < 4 && forall b :: b in s ==> b >= 0x80
  {
    CutShort(s, 0, 0);
  }

  lemma {:induction false} CutShort(s: seq<byte>, i: nat, n: nat)
    requires i <= 3 && n < Room(i)
    ensures DecodeU29(s, i, n).None? <==> |s| + i < 4 && forall b :: b in s ==> b >= 0x80
    decreases 3 - i
  {
    assert s != [] ==> s[0] in s && forall b :: b in s <==> b == s[0] || b in s[1..];
    if s != [] && i < 3 && s[0] >= 0x80 {
      CutShort(s[1..], i + 1, n * 0x80 + s[0] % 0x80);
    }
  }

  /** The values that are their type, and the two kinds of integers. */
  lemma Markers(n: uint29, rest: seq<byte>, table: seq<seq<byte>>)
    ensures Decode([0] + rest, table) == Ok(Undefined, rest, table) && Decode([1] + rest, table) == Ok(Null, rest, table)
    ensures Decode([2] + rest, table) == Ok(False, rest, table) && Decode([3] + rest, table) == Ok(True, rest, table)
    ensures Decode([4] + (EncodeU29(n) + rest), table) == Ok(Integer(n), rest, table)
    ensures Decode([13] + (EncodeU29(n) + rest), table) == Ok(SInteger(ToSigned(n)), rest, table)
  {
    hide DecodeString, DecodeByteArray, DecodeAll, DecodeArrayHeader, DecodeU29, EncodeU29, Reversed, ToSigned;
    TaggedU29(4, n, rest);
    TaggedU29(13, n, rest);
  }

  /** A double travels with its last byte in memory first. */
  lemma DoubleBytes(mem: seq<byte>, rest: seq<byte>, table: seq<seq<byte>>)
    requires |mem| == 8
    ensures Encode(Double(mem)) == [5, mem[7], mem[6], mem[5], mem[4], mem[3], mem[2], mem[1], mem[0]]
    ensures Decode([5, mem[7], mem[6], mem[5], mem[4], mem[3], mem[2], mem[1], mem[0]] + rest, table) == Ok(Double(mem), rest, table)
  {
    hide Decode;
    forall i | 0 <= i < 8 ensures Reversed(mem)[i] == mem[7 - i] {
      ReversedAt(mem, i);
    }
    assert Encode(Double(mem)) == [5, mem[7], mem[6], mem[5], mem[4], mem[3], mem[2], mem[1], mem[0]];
    NumberBack(Double(mem), rest, table);
  }

  lemma {:induction false} ReversedAt(s: seq<byte>, i: nat)
    requires i < |s|
    ensures Reversed(s)[i] == s[|s| - 1 - i]
  {
    if i < |s| - 1 { ReversedAt(s[1..], i); }
  }

  /** No value: an array that is a reference or has a name, and any other type. */
  lemma Refused(tag: byte, n: nat, b: byte, rest: seq<byte>, table: seq<seq<byte>>)
    requires n < 0x1000_0000
    ensures tag > 13 || tag in {7, 8, 10, 11} ==> Decode([tag] + rest, table) == Fail
    ensures Decode([9] + (EncodeU29(2 * n) + rest), table) == Fail
    ensures b != 1 ==> Decode([9] + (EncodeU29(2 * n + 1) + ([b] + rest)), table) == Fail
  {
    hide DecodeString, DecodeByteArray, DecodeAll, DecodeU29, EncodeU29, Reversed, ToSigned;
    TaggedU29(9, 2 * n, rest);
    TaggedU29(9, 2 * n + 1, [b] + rest);
  }

  // ---------- one string ----------

  /** Strings, byte arrays and arrays are told apart by their first byte. */
  lemma ByTag(s: seq<byte>, table: seq<seq<byte>>)
    requires s != []
    ensures s[0] == 6 ==> Decode(s, table) == DecodeString(s, table)
    ensures s[0] == 12 ==> Decode(s, table) == DecodeByteArray(s, table)
  {
    hide DecodeString, DecodeByteArray, DecodeAll, DecodeArrayHeader, DecodeU29, Reversed, ToSigned;
  }

  lemma ArrayTag(s: seq<byte>, table: seq<seq<byte>>, n: nat, body: seq<byte>)
    requires s != [] && s[0] == 9 && DecodeArrayHeader(s) == Some(ArrayHeader(n, body))
    ensures Decode(s, table) == match DecodeAll(body, n, table)
                                case Oks(vs, rest, t) => Ok(Arr(vs), rest, t)
                                case Fails => Fail
                                case Faults => Fault
  {
    hide DecodeString, DecodeByteArray, DecodeAll, DecodeArrayHeader, DecodeU29, Reversed, ToSigned;
  }

  lemma ReferenceRead(s: seq<byte>, i: nat, used: nat, rest: seq<byte>, table: seq<seq<byte>>)
    requires i < 0x1000_0000 && s != [] && DecodeU29(s[1..], 0, 0) == Some(Num(2 * i, used)) && s[1 + used..] == rest
    ensures DecodeString(s, table) == if i < |table| then Ok(Str(table[i]), rest, table) else Ok(Str([]), s, table)
  {
    hide DecodeU29;
  }

  /** A reference gives the string at its place and leaves the table alone; one past the table is the empty string
      with nothing consumed. */
  lemma {:induction false} ReferenceBack(i: nat, rest: seq<byte>, table: seq<seq<byte>>)
    requires i < 0x1000_0000
    ensures var data := [6] + EncodeU29(2 * i) + rest;
            Decode(data, table) == if i < |table| then Ok(Str(table[i]), rest, table) else Ok(Str([]), data, table)
  {
    hide Decode, DecodeString, DecodeU29, EncodeU29;
    TaggedU29(6, 2 * i, rest);
    var s := [6] + (EncodeU29(2 * i) + rest);
    ReferenceRead(s, i, |EncodeU29(2 * i)|, rest, table);
    ByTag(s, table);
    Assoc([6], EncodeU29(2 * i), rest);
  }

  /** A string or byte array that is longer than the data is empty, with nothing consumed. */
  lemma TooShort(n: nat, data: seq<byte>, table: seq<seq<byte>>)
    requires |data| < n < 0x1000_0000
    ensures var s := [6] + (EncodeU29(2 * n + 1) + data); Decode(s, table) == Ok(Str([]), s, table)
    ensures var s := [12] + (EncodeU29(2 * n + 1) + data); Decode(s, table) == Ok(ByteArray([]), s, table)
  {
    hide DecodeU29, EncodeU29, Decode;
    TaggedU29(6, 2 * n + 1, data);
    TaggedU29(12, 2 * n + 1, data);
    ByTag([6] + (EncodeU29(2 * n + 1) + data), table);
    ByTag([12] + (EncodeU29(2 * n + 1) + data), table);
  }

  // ---------- whole messages ----------

  /** Reading a message, whatever follows it, gives the tree it means, each reference replaced by the string at its
      place, and consumes exactly its bytes, as long as the table holds the strings written out. */
  lemma {:induction false} WireBack(w: Wire, rest: seq<byte>, table: seq<seq<byte>>)
    requires Writable(w) && Refers(w, table) && |table| <= 1024
    ensures Decode(Written(w) + rest, table) ==
            if |table| + |Literals(w)| <= 1024 then Ok(Image(Meant(w, table)), rest, table + Literals(w)) else Fault
    decreases w, 1
  {
    hide Decode, EncodeU29, Encode;
    match w
    case Plain(v) => PlainBack(v, rest, table);
    case Ref(i) =>
      ReferenceBack(i, rest, table);
      assert table + [] == table && Image(Str(table[i])) == Str(table[i]);
    case Items(ws) => ItemsBack(ws, rest, table);
  }

  lemma PlainBack(v: Value, rest: seq<byte>, table: seq<seq<byte>>)
    requires Encodable(v) && !v.Arr? && |table| <= 1024
    ensures Decode(Encode(v) + rest, table) ==
            if |table| + |Literals(Plain(v))| <= 1024 then Ok(Image(v), rest, table + Literals(Plain(v))) else Fault
  {
    hide Decode, Encode, Image;
    DecodeBack(v, rest, table);
  }

  lemma {:induction false} ItemsBack(ws: seq<Wire>, rest: seq<byte>, table: seq<seq<byte>>)
    requires Writable(Items(ws)) && AllRefer(ws, table) && |table| <= 1024
    ensures Decode(Written(Items(ws)) + rest, table) ==
            if |table| + |AllLiterals(ws)| <= 1024 then Ok(Arr(Images(AllMeant(ws, table))), rest, table + AllLiterals(ws)) else Fault
    decreases ws, 1
  {
    hide Decode, DecodeAll, DecodeU29, EncodeU29;
    var body := WrittenAll(ws) + rest;
    var s := [9] + (EncodeU29(2 * |ws| + 1) + ([1] + body));
    HeaderBack(|ws|, body);
    Regroup([9], EncodeU29(2 * |ws| + 1), [1], WrittenAll(ws), rest);
    assert Written(Items(ws)) + rest == s;
    ArrayTag(s, table, |ws|, body);
    AllWireBack(ws, rest, table);
  }

  lemma Regroup(a: seq<byte>, b: seq<byte>, c: seq<byte>, d: seq<byte>, e: seq<byte>)
    ensures (a + (b + (c + d))) + e == a + (b + (c + (d + e)))
  {
  }

  lemma HeaderBack(n: nat, body: seq<byte>)
    requires n < 0x1000_0000
    ensures DecodeArrayHeader([9] + (EncodeU29(2 * n + 1) + ([1] + body))) == Some(ArrayHeader(n, body))
  {
    hide DecodeU29, EncodeU29;
    TaggedU29(9, 2 * n + 1, [1] + body);
    assert ([1] + body)[1..] == body;
  }

  lemma {:induction false} AllWireBack(ws: seq<Wire>, rest: seq<byte>, table: seq<seq<byte>>)
    requires (forall w :: w in ws ==> Writable(w)) && AllRefer(ws, table) && |table| <= 1024
    ensures DecodeAll(WrittenAll(ws) + rest, |ws|, table) ==
            if |table| + |AllLiterals(ws)| <= 1024 then Oks(Images(AllMeant(ws, table)), rest, table + AllLiterals(ws)) else Faults
    decreases ws, 0
  {
    hide Decode, Written, Literals, Meant, Refers, Image;
    if ws == [] {
      assert [] + rest == rest && table + [] == table;
    } else {
      var w, more := ws[0], ws[1..];
      var tail, t := WrittenAll(more) + rest, table + Literals(w);
      Assoc(Written(w), WrittenAll(more), rest);
      WireBack(w, tail, table);
      OneImage(Meant(w, table), AllMeant(more, t));
      if |t| <= 1024 {
        AllWireBack(more, rest, t);
        Assoc(table, Literals(w), AllLiterals(more));
      }
    }
  }

  lemma OneImage(v: Value, vs: seq<Value>)
    ensures Images([v] + vs) == [Image(v)] + Images(vs)
  {
    hide Image;
    assert ([v] + vs)[1..] == vs;
  }

  // ---------- sharing every string ----------

  /** The place of the first occurrence. */
  function First(table: seq<seq<byte>>, s: seq<byte>): (i: nat)
    requires s in table
    ensures i < |table| && table[i] == s && s !in table[..i]
  {
    if table[0] == s then 0
    else
      assert s in table[1..];
      var i := First(table[1..], s);
      assert table[..i + 1] == [table[0]] + table[1..][..i];
      i + 1
  }

  /** A writer that sends a string only once: when it is among the 1024 strings a reader keeps, its place is sent. */
  function Share(v: Value, table: seq<seq<byte>>): Wire
    decreases v, 1
  {
    match v
    case Str(s) => if s in table && First(table, s) < 1024 then Ref(First(table, s)) else Plain(v)
    case Arr(children) => Items(ShareAll(children, table))
    case _ => Plain(v)
  }

  function ShareAll(vs: seq<Value>, table: seq<seq<byte>>): (ws: seq<Wire>)
    ensures |ws| == |vs|
    decreases vs, 0
  {
    if vs == [] then [] else var w := Share(vs[0], table); [w] + ShareAll(vs[1..], table + Literals(w))
  }

  lemma {:induction false} ShareMeans(v: Value, table: seq<seq<byte>>)
    requires Encodable(v)
    ensures var w := Share(v, table); Writable(w) && Refers(w, table) && Meant(w, table) == v
    decreases v, 1
  {
    if v.Arr? { ShareAllMeans(v.children, table); }
  }

  lemma {:induction false} ShareAllMeans(vs: seq<Value>, table: seq<seq<byte>>)
    requires forall v :: v in vs ==> Encodable(v)
    ensures var ws := ShareAll(vs, table);
            (forall w :: w in ws ==> Writable(w)) && AllRefer(ws, table) && AllMeant(ws, table) == vs
    decreases vs, 0
  {
    hide Writable, Refers, Meant, Share, Literals, Encodable;
    if vs != [] {
      var w := Share(vs[0], table);
      var more := ShareAll(vs[1..], table + Literals(w));
      ShareMeans(vs[0], table);
      ShareAllMeans(vs[1..], table + Literals(w));
      assert ShareAll(vs, table)[1..] == more;
    }
  }

  ghost function Elements(l: seq<seq<byte>>): set<seq<byte>> {
    set s | s in l
  }

  /** The strings that a reader keeps, and one more, differ from each other. */
  ghost predicate Distinct(l: seq<seq<byte>>) {
    forall i, j :: 0 <= i < j < |l| && j <= 1024 ==> l[i] != l[j]
  }

  /** Sharing writes every string of the tree at least once, and twice only past the end of a full table. */
  lemma {:induction false} ShareWrites(v: Value, table: seq<seq<byte>>)
    requires Distinct(table)
    ensures var t := table + Literals(Share(v, table));
            Distinct(t) && Elements(t) == Elements(table) + Elements(Strings(v))
    decreases v, 1
  {
    if v.Arr? {
      ShareAllWrites(v.children, table);
    } else if v.Str? {
      var t := table + Literals(Share(v, table));
      if v.s in table && First(table, v.s) < 1024 {
        assert t == table;
      } else {
        assert t == table + [v.s];
        assert v.s in table ==> |table| > 1024;
      }
    } else {
      assert table + Literals(Share(v, table)) == table;
    }
  }

  lemma {:induction false} ShareAllWrites(vs: seq<Value>, table: seq<seq<byte>>)
    requires Distinct(table)
    ensures var t := table + AllLiterals(ShareAll(vs, table));
            Distinct(t) && Elements(t) == Elements(table) + Elements(AllStrings(vs))
    decreases vs, 0
  {
    hide Distinct, Share, Literals, Strings;
    if vs == [] {
      assert table + [] == table;
    } else {
      var w := Share(vs[0], table);
      var t := table + Literals(w);
      var more := ShareAll(vs[1..], t);
      ShareWrites(vs[0], table);
      ShareAllWrites(vs[1..], t);
      assert ShareAll(vs, table)[1..] == more;
      Assoc(table, Literals(w), AllLiterals(more));
      assert Elements(AllStrings(vs)) == Elements(Strings(vs[0])) + Elements(AllStrings(vs[1..]));
    }
  }

  /** At most 1024 strings were written if and only if there are at most 1024 different ones. */
  lemma {:induction false} CountDistinct(l: seq<seq<byte>>)
    requires Distinct(l)
    ensures |l| <= 1024 <==> |Elements(l)| <= 1024
    ensures |l| <= 1025 ==> |Elements(l)| == |l|
    ensures |l| > 1025 ==> |Elements(l)| > 1024
  {
    if l == [] {
      assert Elements(l) == {};
    } else {
      var most, s := l[..|l| - 1], l[|l| - 1];
      CountDistinct(most);
      assert l == most + [s];
      if s in most {
        assert |l| > 1025 && Elements(l) == Elements(most);
      } else {
        assert Elements(l) == Elements(most) + {s};
      }
    }
  }

  /** Reading a message in which every string is sent once and then referred to gives the tree back, and exactly its
      bytes, if and only if it holds at most 1024 different strings and no signed integer below -2^24. */
  lemma SharedRoundTrip(v: Value, rest: seq<byte>)
    requires Encodable(v)
    ensures Writable(Share(v, []))
    ensures var o := Decode(Written(Share(v, [])) + rest, []);
            o.Ok? && o.value == Normal(v) && o.rest == rest <==> |Elements(Strings(v))| <= 1024 && Survives(v)
  {
    hide Share, Literals, Written, Writable, Refers, Meant, Decode, Image, Normal, Strings, Survives, Encodable;
    var w := Share(v, []);
    ShareMeans(v, []);
    ShareWrites(v, []);
    assert [] + Literals(w) == Literals(w);
    CountDistinct(Literals(w));
    WireBack(w, rest, []);
    ImageIsNormal(v);
  }
}
