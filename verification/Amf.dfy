/** The AMF3 value codec of framework/amf.c. */
module Amf {
  import opened Wrappers
  import opened Sequences
  import opened Bytes

  /** A value tree. NoValue stands for a null child pointer; Double holds the eight bytes of the
      number as they lie in memory. */
  datatype Value =
    | NoValue | Undefined | Null | False | True
    | Integer(u: uint32)
    | SInteger(i: int)
    | Double(mem: seq<byte>)
    | Str(s: seq<byte>)
    | ByteArray(s: seq<byte>)
    | Arr(children: seq<Value>)

  const INTEGER_MAX := 0x1FFF_FFFF  // AMF_INTEGER_MAX
  const TABLE := 1024               // entries of string_ref
  const LENGTH_LIMIT := 0x1000_0000

  type uint29 = n: int | 0 <= n <= INTEGER_MAX

  // ---------- integers of 29 bits ----------

  /** S2UInt29: the low 29 bits of the two's complement. The source asserts the range. */
  function ToUnsigned(i: int): (u: uint29)
    requires -0x1000_0000 <= i <= 0xFFF_FFFF
  {
    if i >= 0 then i else 0x2000_0000 + i
  }

  /** U2SInt29: when bit 28 is set, i | 0xFF000000 read as a signed word. */
  function ToSigned(u: uint29): int {
    if u >= 0x1000_0000 then u % 0x100_0000 - 0x100_0000 else u
  }

  /** The signed round trip works exactly from -2^24 upward. */
  lemma SignedRoundTrip(i: int)
    requires -0x1000_0000 <= i <= 0xFFF_FFFF
    ensures ToSigned(ToUnsigned(i)) == i <==> i >= -0x100_0000
  {
  }

  /** A number with bit 28 set is read as the negative number that agrees with it in the low 24 bits. */
  lemma SignedReads(u: uint29)
    ensures var i := ToSigned(u);
            if u < 0x1000_0000 then i == u else -0x100_0000 <= i < 0 && (u - i) % 0x100_0000 == 0
  {
    assert u == u / 0x100_0000 * 0x100_0000 + u % 0x100_0000;
  }

  /** amf_encode_u29; the shifts by 14, 15 and 22 are written as repeated shifts. */
  function EncodeU29(n: uint29): (e: seq<byte>)
    ensures 1 <= |e| <= 4
  {
    if n <= 0x7F then [n]
    else if n <= 0x3FFF then [n / 0x80 + 0x80, n % 0x80]
    else if n <= 0x1F_FFFF then [n / 0x80 / 0x80 + 0x80, n / 0x80 % 0x80 + 0x80, n % 0x80]
    else [n / 0x100 / 0x80 / 0x80 + 0x80, n / 0x100 / 0x80 % 0x80 + 0x80, n / 0x100 % 0x80 + 0x80, n % 0x100]
  }

  datatype Num = Num(n: uint29, used: nat)

  ghost function Room(i: nat): nat {
    if i == 0 then 1 else if i == 1 then 0x80 else if i == 2 then 0x4000 else 0x20_0000
  }

  /** amf_decode_u29 from its i-th byte on, with the higher bits already in n. */
  function DecodeU29(s: seq<byte>, i: nat, n: nat): (r: Option<Num>)
    requires i <= 3 && n < Room(i)
    ensures r.Some? ==> i < r.value.used <= 4 && r.value.used - i <= |s|
    decreases 3 - i
  {
    if s == [] then None
    else if i == 3 then Some(Num(n * 0x100 + s[0], 4))
    else if s[0] < 0x80 then Some(Num(n * 0x80 + s[0], i + 1))
    else DecodeU29(s[1..], i + 1, n * 0x80 + s[0] % 0x80)
  }

  /** One byte with its top bit set, at any but the last place. */
  lemma DecodeMore(s: seq<byte>, i: nat, n: nat, d: nat)
    requires i < 3 && n < Room(i) && s != [] && s[0] == 0x80 + d && d < 0x80
    ensures DecodeU29(s, i, n) == DecodeU29(s[1..], i + 1, n * 0x80 + d)
  {
  }

  lemma U29RoundTrip(n: uint29, rest: seq<byte>)
    ensures DecodeU29(EncodeU29(n) + rest, 0, 0) == Some(Num(n, |EncodeU29(n)|))
  {
    if n <= 0x7F {
      DecodeLast([n] + rest, 0, 0, n);
    } else if n <= 0x3FFF {
      Two(n / 0x80, n % 0x80, rest);
    } else if n <= 0x1F_FFFF {
      var m := n / 0x80;
      Three(m / 0x80, m % 0x80, n % 0x80, rest);
    } else {
      var l := n / 0x100;
      var m := l / 0x80;
      Four(m / 0x80, m % 0x80, l % 0x80, n % 0x100, rest);
    }
  }

  lemma Two(a: nat, b: nat, rest: seq<byte>)
    requires a < 0x80 && b < 0x80
    ensures DecodeU29([a + 0x80, b] + rest, 0, 0) == Some(Num(a * 0x80 + b, 2))
  {
    hide DecodeU29;
    var s := [a + 0x80, b] + rest;
    DecodeMore(s, 0, 0, a);
    DecodeLast(s[1..], 1, a, b);
  }

  lemma Three(a: nat, b: nat, c: nat, rest: seq<byte>)
    requires a < 0x80 && b < 0x80 && c < 0x80
    ensures DecodeU29([a + 0x80, b + 0x80, c] + rest, 0, 0) == Some(Num((a * 0x80 + b) * 0x80 + c, 3))
  {
    hide DecodeU29;
    var s := [a + 0x80, b + 0x80, c] + rest;
    DecodeMore(s, 0, 0, a);
    DecodeMore(s[1..], 1, a, b);
    DecodeLast(s[1..][1..], 2, a * 0x80 + b, c);
  }

  lemma Four(a: nat, b: nat, c: nat, d: nat, rest: seq<byte>)
    requires a < 0x80 && b < 0x80 && c < 0x80 && d < 0x100
    ensures DecodeU29([a + 0x80, b + 0x80, c + 0x80, d] + rest, 0, 0) == Some(Num(((a * 0x80 + b) * 0x80 + c) * 0x100 + d, 4))
  {
    hide DecodeU29;
    var s := [a + 0x80, b + 0x80, c + 0x80, d] + rest;
    DecodeMore(s, 0, 0, a);
    DecodeMore(s[1..], 1, a, b);
    DecodeMore(s[1..][1..], 2, a * 0x80 + b, c);
    DecodeLast(s[1..][1..][1..], 3, (a * 0x80 + b) * 0x80 + c, d);
  }

  lemma DecodeLast(s: seq<byte>, i: nat, n: nat, d: nat)
    requires i <= 3 && n < Room(i) && s != [] && s[0] == d && (i < 3 ==> d < 0x80)
    ensures DecodeU29(s, i, n) == Some(Num(n * (if i == 3 then 0x100 else 0x80) + d, i + 1))
  {
  }

  /** amf_decode_u29 as the source loops: n is shifted as soon as another byte is announced. */
  method ReadU29(data: seq<byte>) returns (r: Option<Num>)
    ensures r == DecodeU29(data, 0, 0)
  {
    var n: int, i, skip := 0, 0, 0;
    ghost var high: nat := 0;
    assert data[0..] == data;
    while true
      invariant 0 <= i == skip <= 3 && skip <= |data| && 0 <= high < Room(i)
      invariant n == (if i == 3 then high * 0x100 else high * 0x80)
      invariant DecodeU29(data, 0, 0) == DecodeU29(data[skip..], i, high)
      decreases 3 - i
    {
      if skip == |data| {
        return None;
      }
      var c := data[skip];
      assert data[skip..][0] == c && data[skip..][1..] == data[skip + 1..];
      skip := skip + 1;
      if i == 3 {
        return Some(Num(n + c, skip));
      }
      n := n + c % 0x80;
      if c < 0x80 {
        return Some(Num(n, skip));
      }
      high := n;
      n := if i != 2 then n * 0x80 else n * 0x100;
      i := i + 1;
    }
  }

  // ---------- doubles of integers ----------

  const MANTISSA := 0x10_0000_0000_0000  // 2^52

  /** The memory of the IEEE 754 double equal to an integer that needs 30 to 32 bits. */
  function DoubleOf(u: uint32): (mem: seq<byte>)
    requires u > INTEGER_MAX
    ensures |mem| == 8
  {
    LeBytes(DoubleWord(u), 8)
  }

  function DoubleWord(u: uint32): nat
    requires u > INTEGER_MAX
  {
    if u < 0x4000_0000 then 1052 * MANTISSA + (u - 0x2000_0000) * 0x80_0000
    else if u < 0x8000_0000 then 1053 * MANTISSA + (u - 0x4000_0000) * 0x40_0000
    else 1054 * MANTISSA + (u - 0x8000_0000) * 0x20_0000
  }

  function Pow2(k: nat): nat {
    if k == 0 then 1 else 2 * Pow2(k - 1)
  }

  /** The integer that a positive double with an exponent between 0 and 52 denotes, if it is one. */
  function IntegerOf(mem: seq<byte>): Option<nat> {
    var w := FromLeBytes(mem);
    var exponent, fraction := w / MANTISSA, w % MANTISSA;
    if 1023 <= exponent <= 1075 then
      var unit := Pow2(1075 - exponent);
      if unit > 0 && (MANTISSA + fraction) % unit == 0 then Some((MANTISSA + fraction) / unit) else None
    else None
  }

  lemma DoubleIsEqual(u: uint32)
    requires u > INTEGER_MAX
    ensures IntegerOf(DoubleOf(u)) == Some(u)
  {
    var w := DoubleWord(u);
    assert Pow256(8) == 256 * 256 * 256 * 256 * 256 * 256 * 256 * 256;
    LeRoundTrip(w, 8);
    assert Pow2(8) == 256;
    assert Pow2(16) == 0x1_0000;
    assert Pow2(21) == 0x20_0000 && Pow2(22) == 0x40_0000 && Pow2(23) == 0x80_0000;
  }

  // ---------- encoding ----------

  function Reversed(s: seq<byte>): (r: seq<byte>)
    ensures |r| == |s|
  {
    if s == [] then [] else Reversed(s[1..]) + [s[0]]
  }

  /** What the encoder's assertions demand of a tree. */
  predicate Encodable(v: Value) {
    match v
    case SInteger(i) => -0x1000_0000 <= i <= 0xFFF_FFFF
    case Double(mem) => |mem| == 8
    case Str(s) => |s| < LENGTH_LIMIT
    case ByteArray(s) => |s| < LENGTH_LIMIT
    case Arr(children) => |children| < LENGTH_LIMIT && forall c :: c in children ==> Encodable(c)
    case _ => true
  }

  function Header(len: nat): seq<byte>
    requires len < LENGTH_LIMIT
  {
    EncodeU29(2 * len + 1)
  }

  function Encode(v: Value): (e: seq<byte>)
    requires Encodable(v)
    ensures e != []
    decreases v, 1
  {
    match v
    case NoValue => [1]
    case Undefined => [0]
    case Null => [1]
    case False => [2]
    case True => [3]
    case Integer(u) => if u <= INTEGER_MAX then [4] + EncodeU29(u) else [5] + Reversed(DoubleOf(u))
    case SInteger(i) => [13] + EncodeU29(ToUnsigned(i))
    case Double(mem) => [5] + Reversed(mem)
    case Str(s) => [6] + (Header(|s|) + s)
    case ByteArray(s) => [12] + (Header(|s|) + s)
    case Arr(children) => [9] + (Header(|children|) + ([1] + EncodeAll(children)))
  }

  function EncodeAll(vs: seq<Value>): seq<byte>
    requires forall v :: v in vs ==> Encodable(v)
    decreases vs, 0
  {
    if vs == [] then [] else Encode(vs[0]) + EncodeAll(vs[1..])
  }

  // ---------- amf_get_encode_length ----------

  function LengthU29(n: uint29): nat {
    if n <= 0x7F then 1 else if n <= 0x3FFF then 2 else if n <= 0x1F_FFFF then 3 else 4
  }

  function EncodeLength(v: Value): nat
    requires Encodable(v)
    decreases v, 1
  {
    match v
    case Integer(u) => if u > INTEGER_MAX then 9 else 1 + LengthU29(u)
    case SInteger(i) => 1 + LengthU29(ToUnsigned(i))
    case Double(_) => 9
    case Str(s) => 1 + LengthU29(2 * |s| + 1) + |s|
    case ByteArray(s) => 1 + LengthU29(2 * |s| + 1) + |s|
    case Arr(children) => 1 + LengthU29(2 * |children| + 1) + 1 + EncodeLengths(children)
    case _ => 1
  }

  function EncodeLengths(vs: seq<Value>): nat
    requires forall v :: v in vs ==> Encodable(v)
    decreases vs, 0
  {
    if vs == [] then 0 else EncodeLength(vs[0]) + EncodeLengths(vs[1..])
  }

  /** The length computed up front is the length written. */
  lemma {:induction false} LengthIsExact(v: Value)
    requires Encodable(v)
    ensures |Encode(v)| == EncodeLength(v)
    decreases v, 1
  {
    if v.Arr? { LengthsAreExact(v.children); }
  }

  lemma {:induction false} LengthsAreExact(vs: seq<Value>)
    requires forall v :: v in vs ==> Encodable(v)
    ensures |EncodeAll(vs)| == EncodeLengths(vs)
    decreases vs, 0
  {
    if vs != [] {
      LengthIsExact(vs[0]);
      LengthsAreExact(vs[1..]);
    }
  }

  // ---------- decoding ----------

  /** What reading one value from the front of the data comes to: the value, the data behind it and
      the string table; a null pointer; or undefined behaviour, that is, a byte read past the
      data, an uninitialised number, or an entry written past the string table. */
  datatype Outcome = Ok(value: Value, rest: seq<byte>, table: seq<seq<byte>>) | Fail | Fault

  datatype Outcomes = Oks(values: seq<Value>, rest: seq<byte>, table: seq<seq<byte>>) | Fails | Faults

  /** amf_decode_string: a literal string enters the table, a reference is looked up, and anything
      malformed is the empty string with nothing consumed. */
  function DecodeString(s: seq<byte>, table: seq<seq<byte>>): (o: Outcome)
    requires s != []
    ensures o.Ok? ==> |o.rest| <= |s|
  {
    var len := DecodeU29(s[1..], 0, 0);
    if len.None? then Ok(Str([]), s, table)
    else
      var n, rest := len.value.n / 2, s[1 + len.value.used..];
      if len.value.n % 2 == 0 then
        if n >= |table| then Ok(Str([]), s, table) else Ok(Str(table[n]), rest, table)
      else if |rest| < n then Ok(Str([]), s, table)
      else if |table| >= TABLE then Fault
      else Ok(Str(rest[..n]), rest[n..], table + [rest[..n]])
  }

  function DecodeByteArray(s: seq<byte>, table: seq<seq<byte>>): (o: Outcome)
    requires s != []
    ensures o.Ok? ==> |o.rest| <= |s|
  {
    var len := DecodeU29(s[1..], 0, 0);
    if len.None? then Ok(ByteArray([]), s, table)
    else
      var n, rest := len.value.n / 2, s[1 + len.value.used..];
      if |rest| < n then Ok(ByteArray([]), s, table) else Ok(ByteArray(rest[..n]), rest[n..], table)
  }

  datatype ArrayHeader = ArrayHeader(count: nat, rest: seq<byte>)

  /** amf_decode_array: the count must be a literal and the name must be empty. */
  function DecodeArrayHeader(s: seq<byte>): (r: Option<ArrayHeader>)
    requires s != []
    ensures r.Some? ==> |r.value.rest| < |s|
  {
    var len := DecodeU29(s[1..], 0, 0);
    if len.None? || len.value.n % 2 == 0 then None
    else
      var rest := s[1 + len.value.used..];
      if rest == [] || rest[0] != 1 then None else Some(ArrayHeader(len.value.n / 2, rest[1..]))
  }

  /** _read_amf with the string table built so far. */
  function Decode(s: seq<byte>, table: seq<seq<byte>>): (o: Outcome)
    ensures o.Ok? ==> |o.rest| <= |s|
    decreases |s|, 0
  {
    if s == [] then Fault
    else match s[0]
      case 0 => Ok(Undefined, s[1..], table)
      case 1 => Ok(Null, s[1..], table)
      case 2 => Ok(False, s[1..], table)
      case 3 => Ok(True, s[1..], table)
      case 4 =>
        var u := DecodeU29(s[1..], 0, 0);
        if u.None? then Fault else Ok(Integer(u.value.n), s[1 + u.value.used..], table)
      case 13 =>
        var u := DecodeU29(s[1..], 0, 0);
        if u.None? then Ok(SInteger(0), s, table) else Ok(SInteger(ToSigned(u.value.n)), s[1 + u.value.used..], table)
      case 5 => if |s| < 9 then Fault else Ok(Double(Reversed(s[1..9])), s[9..], table)
      case 6 => DecodeString(s, table)
      case 12 => DecodeByteArray(s, table)
      case 9 =>
        var h := DecodeArrayHeader(s);
        if h.None? then Fail
        else
          var r := DecodeAll(h.value.rest, h.value.count, table);
          (match r
           case Oks(vs, rest, t) => Ok(Arr(vs), rest, t)
           case Fails => Fail
           case Faults => Fault)
      case _ => Fail
  }

  /** The loop of _read_array. */
  function DecodeAll(s: seq<byte>, n: nat, table: seq<seq<byte>>): (o: Outcomes)
    ensures o.Oks? ==> |o.rest| <= |s| && |o.values| == n
    decreases |s|, n
  {
    if n == 0 then Oks([], s, table)
    else match Decode(s, table)
      case Fail => Fails
      case Fault => Faults
      case Ok(v, rest, t) =>
        match DecodeAll(rest, n - 1, t)
        case Oks(vs, rest', t') => Oks([v] + vs, rest', t')
        case other => other
  }

  // ---------- what comes back ----------

  /** What a decoded tree holds: null for a null pointer, a double for an integer of more than
      29 bits, and whatever ToSigned makes of a signed integer. */
  function Image(v: Value): Value
    decreases v, 1
  {
    match v
    case NoValue => Null
    case Integer(u) => if u > INTEGER_MAX then Double(DoubleOf(u)) else v
    case SInteger(i) => if -0x1000_0000 <= i <= 0xFFF_FFFF then SInteger(ToSigned(ToUnsigned(i))) else v
    case Arr(children) => Arr(Images(children))
    case _ => v
  }

  function Images(vs: seq<Value>): (r: seq<Value>)
    ensures |r| == |vs|
    decreases vs, 0
  {
    if vs == [] then [] else [Image(vs[0])] + Images(vs[1..])
  }

  /** The strings of a tree in the order they are written. */
  function Strings(v: Value): seq<seq<byte>>
    decreases v, 1
  {
    match v
    case Str(s) => [s]
    case Arr(children) => AllStrings(children)
    case _ => []
  }

  function AllStrings(vs: seq<Value>): seq<seq<byte>>
    decreases vs, 0
  {
    if vs == [] then [] else Strings(vs[0]) + AllStrings(vs[1..])
  }

  ghost predicate Fits(table: seq<seq<byte>>, more: seq<seq<byte>>) {
    |table| + |more| <= TABLE
  }

  lemma {:induction false} ReversedTwice(s: seq<byte>)
    ensures Reversed(Reversed(s)) == s
  {
    if s != [] {
      ReversedSnoc(Reversed(s[1..]), s[0]);
      ReversedTwice(s[1..]);
    }
  }

  lemma {:induction false} ReversedSnoc(s: seq<byte>, b: byte)
    ensures Reversed(s + [b]) == [b] + Reversed(s)
  {
    if s == [] {
      assert s + [b] == [b];
    } else {
      ReversedSnoc(s[1..], b);
      assert (s + [b])[1..] == s[1..] + [b];
    }
  }

  /** A tagged 29-bit number at the front of the data. */
  lemma TaggedU29(tag: byte, n: uint29, rest: seq<byte>)
    ensures var s := [tag] + (EncodeU29(n) + rest);
            var u := DecodeU29(s[1..], 0, 0);
            u == Some(Num(n, |EncodeU29(n)|)) && s[1 + u.value.used..] == rest
  {
    hide DecodeU29, EncodeU29;
    U29RoundTrip(n, rest);
    assert ([tag] + (EncodeU29(n) + rest))[1..] == EncodeU29(n) + rest;
  }

  lemma NumberBack(v: Value, rest: seq<byte>, table: seq<seq<byte>>)
    requires Encodable(v) && (v.Integer? || v.SInteger? || v.Double?)
    ensures Decode(Encode(v) + rest, table) == Ok(Image(v), rest, table)
  {
    hide DecodeU29, EncodeU29, ToUnsigned, ToSigned, DoubleOf, Reversed;
    if v.Double? || (v.Integer? && v.u > INTEGER_MAX) {
      var mem := if v.Double? then v.mem else DoubleOf(v.u);
      var s := [5] + Reversed(mem) + rest;
      ReversedTwice(mem);
      assert s[1..9] == Reversed(mem) && s[9..] == rest;
    } else if v.Integer? {
      TaggedU29(4, v.u, rest);
      assert Encode(v) + rest == [4] + (EncodeU29(v.u) + rest);
    } else {
      TaggedU29(13, ToUnsigned(v.i), rest);
      assert Encode(v) + rest == [13] + (EncodeU29(ToUnsigned(v.i)) + rest);
    }
  }

  lemma StringBack(t: seq<byte>, rest: seq<byte>, table: seq<seq<byte>>)
    requires |t| < LENGTH_LIMIT && |table| <= TABLE
    ensures Decode(Encode(Str(t)) + rest, table) == if |table| < TABLE then Ok(Str(t), rest, table + [t]) else Fault
  {
    hide DecodeU29, EncodeU29, DecodeAll;
    TaggedU29(6, 2 * |t| + 1, t + rest);
    var s := [6] + (EncodeU29(2 * |t| + 1) + (t + rest));
    assert Encode(Str(t)) + rest == s;
    assert (t + rest)[..|t|] == t && (t + rest)[|t|..] == rest;
    assert DecodeString(s, table) == if |table| < TABLE then Ok(Str(t), rest, table + [t]) else Fault;
  }

  lemma ByteArrayBack(t: seq<byte>, rest: seq<byte>, table: seq<seq<byte>>)
    requires |t| < LENGTH_LIMIT
    ensures Decode(Encode(ByteArray(t)) + rest, table) == Ok(ByteArray(t), rest, table)
  {
    hide DecodeU29, EncodeU29, DecodeAll;
    TaggedU29(12, 2 * |t| + 1, t + rest);
    var s := [12] + (EncodeU29(2 * |t| + 1) + (t + rest));
    assert Encode(ByteArray(t)) + rest == s;
    assert (t + rest)[..|t|] == t && (t + rest)[|t|..] == rest;
    assert DecodeByteArray(s, table) == Ok(ByteArray(t), rest, table);
  }

  /** Reading what was encoded, whatever follows it, gives the image of the tree and consumes exactly
      its bytes, as long as the string table holds; one string more is undefined behaviour. */
  lemma {:induction false} DecodeBack(v: Value, rest: seq<byte>, table: seq<seq<byte>>)
    requires Encodable(v) && |table| <= TABLE
    ensures Decode(Encode(v) + rest, table) ==
            if Fits(table, Strings(v)) then Ok(Image(v), rest, table + Strings(v)) else Fault
    decreases v, 1
  {
    hide DecodeU29, EncodeU29, DecodeString, DecodeByteArray, DecodeAll;
    if v.Arr? {
      ArrayBack(v.children, rest, table);
    } else if v.Str? {
      StringBack(v.s, rest, table);
    } else {
      assert table + [] == table;
      if v.ByteArray? {
        ByteArrayBack(v.s, rest, table);
      } else if v.Integer? || v.SInteger? || v.Double? {
        NumberBack(v, rest, table);
      } else {
        assert (Encode(v) + rest)[1..] == rest;
      }
    }
  }

  lemma {:induction false} ArrayBack(vs: seq<Value>, rest: seq<byte>, table: seq<seq<byte>>)
    requires Encodable(Arr(vs)) && |table| <= TABLE
    ensures Decode(Encode(Arr(vs)) + rest, table) ==
            if Fits(table, AllStrings(vs)) then Ok(Arr(Images(vs)), rest, table + AllStrings(vs)) else Fault
    decreases vs, 1
  {
    hide DecodeU29, EncodeU29, DecodeString, DecodeByteArray, DecodeAll;
    var body := EncodeAll(vs) + rest;
    var s := [9] + (Header(|vs|) + ([1] + body));
    assert Encode(Arr(vs)) + rest == s;
    TaggedU29(9, 2 * |vs| + 1, [1] + body);
    assert ([1] + body)[1..] == body;
    assert DecodeArrayHeader(s) == Some(ArrayHeader(|vs|, body));
    AllBack(vs, rest, table);
  }

  lemma {:induction false} AllBack(vs: seq<Value>, rest: seq<byte>, table: seq<seq<byte>>)
    requires (forall v :: v in vs ==> Encodable(v)) && |table| <= TABLE
    ensures DecodeAll(EncodeAll(vs) + rest, |vs|, table) ==
            if Fits(table, AllStrings(vs)) then Oks(Images(vs), rest, table + AllStrings(vs)) else Faults
    decreases vs, 0
  {
    hide Decode, Encode, Image, Strings;
    if vs == [] {
      assert [] + rest == rest && table + [] == table;
    } else {
      var v, more := vs[0], vs[1..];
      var tail := EncodeAll(more) + rest;
      assert EncodeAll(vs) + rest == Encode(v) + tail;
      DecodeBack(v, tail, table);
      if Fits(table, Strings(v)) {
        AllBack(more, rest, table + Strings(v));
        assert (table + Strings(v)) + AllStrings(more) == table + AllStrings(vs);
      }
    }
  }

  /** Every signed integer of the tree is in the range that survives. */
  predicate Survives(v: Value)
    decreases v, 1
  {
    match v
    case SInteger(i) => i >= -0x100_0000
    case Arr(children) => AllSurvive(children)
    case _ => true
  }

  predicate AllSurvive(vs: seq<Value>)
    decreases vs, 0
  {
    vs == [] || (Survives(vs[0]) && AllSurvive(vs[1..]))
  }

  /** The tree a reader should see: null pointers as null, long integers as equal doubles. */
  function Normal(v: Value): Value
    decreases v, 1
  {
    match v
    case NoValue => Null
    case Integer(u) => if u > INTEGER_MAX then Double(DoubleOf(u)) else v
    case Arr(children) => Arr(Normals(children))
    case _ => v
  }

  function Normals(vs: seq<Value>): (r: seq<Value>)
    ensures |r| == |vs|
    decreases vs, 0
  {
    if vs == [] then [] else [Normal(vs[0])] + Normals(vs[1..])
  }

  lemma {:induction false} ImageIsNormal(v: Value)
    requires Encodable(v)
    ensures Image(v) == Normal(v) <==> Survives(v)
    decreases v, 1
  {
    if v.Arr? { ImagesAreNormal(v.children); }
  }

  lemma {:induction false} ImagesAreNormal(vs: seq<Value>)
    requires forall v :: v in vs ==> Encodable(v)
    ensures Images(vs) == Normals(vs) <==> AllSurvive(vs)
    decreases vs, 0
  {
    if vs != [] {
      ImageIsNormal(vs[0]);
      ImagesAreNormal(vs[1..]);
      assert Images(vs)[1..] == Images(vs[1..]) && Normals(vs)[1..] == Normals(vs[1..]);
    }
  }

  /** amf_read of what amf_encode wrote, followed by anything: the same tree, and exactly its bytes,
      if and only if it holds at most 1024 strings and no signed integer below -2^24. */
  lemma RoundTrip(v: Value, rest: seq<byte>)
    requires Encodable(v)
    ensures |Encode(v)| == EncodeLength(v)
    ensures var o := Decode(Encode(v) + rest, []);
            o.Ok? && o.value == Normal(v) && o.rest == rest <==> |Strings(v)| <= TABLE && Survives(v)
  {
    hide Decode, Encode, Image, Normal, Strings, Survives, EncodeLength;
    LengthIsExact(v);
    DecodeBack(v, rest, []);
    ImageIsNormal(v);
  }

  // ---------- the encoder and the reader as they run ----------

  lemma {:induction false} EncodeAllSnoc(vs: seq<Value>, v: Value)
    requires (forall w :: w in vs ==> Encodable(w)) && Encodable(v)
    ensures (forall w :: w in vs + [v] ==> Encodable(w)) && EncodeAll(vs + [v]) == EncodeAll(vs) + Encode(v)
  {
    hide Encode;
    if vs == [] {
      assert vs + [v] == [v] && EncodeAll([v]) == Encode(v) + EncodeAll([]);
    } else {
      EncodeAllSnoc(vs[1..], v);
      assert (vs + [v])[1..] == vs[1..] + [v];
      assert EncodeAll(vs + [v]) == Encode(vs[0]) + (EncodeAll(vs[1..]) + Encode(v));
    }
  }

  // The encoder checks every part it writes against a length it is told, but hands that length on to the children
  // of an array undiminished. Such a check stops a part that is longer than the whole buffer, and nothing else.

  /** The type byte and the number behind it. */
  function HeadLength(n: uint29): nat {
    1 + LengthU29(n)
  }

  /** What amf_encode answers when it is told dlen: parts that are too long count as nothing. */
  function Told(v: Value, dlen: nat): nat
    requires Encodable(v)
    decreases v, 1
  {
    if v.Arr? then
      var head := HeadLength(2 * |v.children| + 1) + 1;
      (if head <= dlen then head else 0) + ToldAll(v.children, dlen)
    else if EncodeLength(v) <= dlen then EncodeLength(v) else 0
  }

  function ToldAll(vs: seq<Value>, dlen: nat): nat
    requires forall v :: v in vs ==> Encodable(v)
    decreases vs, 0
  {
    if vs == [] then 0 else Told(vs[0], dlen) + ToldAll(vs[1..], dlen)
  }

  function Larger(a: nat, b: nat): nat { if a > b then a else b }

  /** The longest part that is checked in one go. */
  function Longest(v: Value): nat
    requires Encodable(v)
    decreases v, 1
  {
    if v.Arr? then Larger(HeadLength(2 * |v.children| + 1) + 1, LongestOf(v.children)) else EncodeLength(v)
  }

  function LongestOf(vs: seq<Value>): nat
    requires forall v :: v in vs ==> Encodable(v)
    decreases vs, 0
  {
    if vs == [] then 0 else Larger(Longest(vs[0]), LongestOf(vs[1..]))
  }

  /** The checks let a whole tree through if and only if none of its parts is longer than the length told; a tree
      that fits as a whole always passes. */
  lemma {:induction false} ChecksExactly(v: Value, dlen: nat)
    requires Encodable(v)
    ensures Told(v, dlen) == EncodeLength(v) <==> Longest(v) <= dlen
    ensures Told(v, dlen) <= EncodeLength(v) && 0 < Longest(v) <= EncodeLength(v)
    decreases v, 1
  {
    hide LengthU29;
    if v.Arr? { ChecksExactlyAll(v.children, dlen); }
  }

  lemma {:induction false} ChecksExactlyAll(vs: seq<Value>, dlen: nat)
    requires forall v :: v in vs ==> Encodable(v)
    ensures ToldAll(vs, dlen) == EncodeLengths(vs) <==> LongestOf(vs) <= dlen
    ensures ToldAll(vs, dlen) <= EncodeLengths(vs) && LongestOf(vs) <= EncodeLengths(vs)
    decreases vs, 0
  {
    hide Told, Longest, EncodeLength;
    if vs != [] {
      ChecksExactly(vs[0], dlen);
      ChecksExactlyAll(vs[1..], dlen);
    }
  }

  /** Nothing but at..end has changed. */
  ghost predicate Outside(was: seq<byte>, now: seq<byte>, at: nat, end: nat) {
    at <= end <= |was| == |now| && now[..at] == was[..at] && now[end..] == was[end..]
  }

  lemma OutsideSelf(s: seq<byte>, at: nat, end: nat)
    requires at <= end <= |s|
    ensures Outside(s, s, at, end)
  {
  }

  lemma OutsideWiden(was: seq<byte>, now: seq<byte>, at: nat, end: nat, at': nat, end': nat)
    requires Outside(was, now, at, end) && at' <= at && end <= end' <= |was|
    ensures Outside(was, now, at', end') && now[at'..at] == was[at'..at] && now[end..end'] == was[end..end']
  {
    assert now[..at'] == now[..at][..at'] && was[..at'] == was[..at][..at'];
    assert now[end'..] == now[end..][end' - end..] && was[end'..] == was[end..][end' - end..];
    assert now[at'..at] == now[..at][at'..] && was[at'..at] == was[..at][at'..];
    assert now[end..end'] == now[end..][..end' - end] && was[end..end'] == was[end..][..end' - end];
  }

  lemma OutsideTrans(was: seq<byte>, mid: seq<byte>, now: seq<byte>, at: nat, end: nat)
    requires Outside(was, mid, at, end) && Outside(mid, now, at, end)
    ensures Outside(was, now, at, end)
  {
  }

  /** The n bytes from at on are the text. */
  ghost predicate Holds(data: seq<byte>, at: nat, n: nat, text: seq<byte>) {
    n == |text| && at + n <= |data| && data[at..at + n] == text
  }

  lemma HoldsMore(mid: seq<byte>, now: seq<byte>, at: nat, n: nat, m: nat, text: seq<byte>, more: seq<byte>)
    requires Holds(mid, at, n, text) && Outside(mid, now, at + n, at + n + m) && Holds(now, at + n, m, more)
    ensures Holds(now, at, n + m, text + more)
  {
    assert now[at..at + n] == now[..at + n][at..] == mid[..at + n][at..] == mid[at..at + n];
    assert now[at..at + n + m] == now[at..at + n] + now[at + n..at + n + m];
  }

  /** Two pieces one behind the other. */
  lemma TwoPieces(was: seq<byte>, mid: seq<byte>, now: seq<byte>, at: nat, m: nat, n: nat)
    requires Outside(was, mid, at, at + m) && Outside(mid, now, at + m, at + m + n)
    ensures Outside(was, now, at, at + m + n)
  {
    assert at + m + n <= |was|;
    hide Outside;
    OutsideWiden(was, mid, at, at + m, at, at + m + n);
    OutsideWiden(mid, now, at + m, at + m + n, at, at + m + n);
    OutsideTrans(was, mid, now, at, at + m + n);
  }

  /** memcpy. */
  method Put(data: array<byte>, at: nat, s: seq<byte>)
    requires at + |s| <= data.Length
    modifies data
    ensures Outside(old(data[..]), data[..], at, at + |s|) && Holds(data[..], at, |s|, s)
  {
    forall i | 0 <= i < |s| {
      data[at + i] := s[i];
    }
  }

  /** amf_encode_u29. */
  method EncodeU29Into(data: array<byte>, at: nat, len: nat, val: uint29) returns (n: nat)
    requires at + LengthU29(val) <= data.Length
    modifies data
    ensures n == if LengthU29(val) <= len then LengthU29(val) else 0
    ensures Outside(old(data[..]), data[..], at, at + LengthU29(val))
    ensures n > 0 ==> Holds(data[..], at, n, EncodeU29(val))
  {
    if val <= 0x7F {
      if len < 1 { return 0; }
      n := 1;
    } else if val <= 0x3FFF {
      if len < 2 { return 0; }
      n := 2;
    } else if val <= 0x1F_FFFF {
      if len < 3 { return 0; }
      n := 3;
    } else {
      if len < 4 { return 0; }
      n := 4;
    }
    assert |EncodeU29(val)| == n;
    hide EncodeU29;
    Put(data, at, EncodeU29(val));
  }

  /** The type byte and a number: all of an integer, and the head of everything with a length. */
  method EncodeHead(data: array<byte>, at: nat, len: nat, tag: byte, val: uint29) returns (n: nat)
    requires at + HeadLength(val) <= data.Length
    modifies data
    ensures n == if HeadLength(val) <= len then HeadLength(val) else 0
    ensures Outside(old(data[..]), data[..], at, at + HeadLength(val))
    ensures n > 0 ==> Holds(data[..], at, n, [tag] + EncodeU29(val))
  {
    hide EncodeU29, LengthU29, Outside, Holds;
    ghost var was := data[..];
    n := 0;
    LengthPositive(val);
    OutsideSelf(was, at, at + HeadLength(val));
    if len < 1 {
      return;
    }
    Put(data, at, [tag]);
    ghost var mid := data[..];
    var offset := EncodeU29Into(data, at + 1, len - 1, val);
    TwoPieces(was, mid, data[..], at, 1, LengthU29(val));
    if offset > 0 {
      HoldsMore(mid, data[..], at, 1, offset, [tag], EncodeU29(val));
      n := 1 + offset;
    }
  }

  lemma LengthPositive(n: uint29)
    ensures LengthU29(n) > 0 && |EncodeU29(n)| == LengthU29(n)
  {
  }

  /** amf_encode_double. */
  method EncodeDouble(data: array<byte>, at: nat, len: nat, mem: seq<byte>) returns (n: nat)
    requires at + 9 <= data.Length && |mem| == 8
    modifies data
    ensures n == if 9 <= len then 9 else 0
    ensures Outside(old(data[..]), data[..], at, at + 9)
    ensures n > 0 ==> Holds(data[..], at, n, [5] + Reversed(mem))
  {
    hide Reversed, Outside, Holds;
    ghost var was := data[..];
    OutsideSelf(was, at, at + 9);
    if len < 1 {
      return 0;
    }
    Put(data, at, [5]);
    ghost var mid := data[..];
    Put(data, at + 1, Reversed(mem));
    TwoPieces(was, mid, data[..], at, 1, 8);
    HoldsMore(mid, data[..], at, 1, 8, [5], Reversed(mem));
    if len - 1 < 8 {
      return 0;
    }
    return 9;
  }

  /** A head and the bytes behind it: amf_encode_string, amf_encode_byte_array and amf_encode_array. */
  method EncodePart(data: array<byte>, at: nat, len: nat, tag: byte, val: uint29, s: seq<byte>) returns (n: nat)
    requires at + HeadLength(val) + |s| <= data.Length
    modifies data
    ensures n == if HeadLength(val) + |s| <= len then HeadLength(val) + |s| else 0
    ensures Outside(old(data[..]), data[..], at, at + HeadLength(val) + |s|)
    ensures n > 0 ==> Holds(data[..], at, n, [tag] + (EncodeU29(val) + s))
  {
    hide EncodeU29, HeadLength, Outside, Holds;
    ghost var was, end := data[..], at + HeadLength(val) + |s|;
    HeadPositive(val);
    var head := EncodeHead(data, at, len, tag, val);
    ghost var mid := data[..];
    OutsideWiden(was, mid, at, at + HeadLength(val), at, end);
    n := 0;
    if head > 0 && len - head >= |s| {
      Put(data, at + head, s);
      TwoPieces(was, mid, data[..], at, head, |s|);
      HoldsMore(mid, data[..], at, head, |s|, [tag] + EncodeU29(val), s);
      Assoc([tag], EncodeU29(val), s);
      n := head + |s|;
    }
  }

  lemma HeadPositive(n: uint29)
    ensures HeadLength(n) > 1
  {
  }

  /** amf_encode for a value with room for its whole encoding, as world/message.c allocates it, whatever length it is
      told. */
  method EncodeInto(data: array<byte>, at: nat, dlen: nat, v: Value) returns (n: nat)
    requires Encodable(v) && at + EncodeLength(v) <= data.Length
    modifies data
    ensures n == Told(v, dlen)
    ensures Outside(old(data[..]), data[..], at, at + EncodeLength(v))
    ensures Longest(v) <= dlen ==> Holds(data[..], at, EncodeLength(v), Encode(v))
    decreases v, 1
  {
    ChecksExactly(v, dlen);
    match v
    case Arr(children) => n := EncodeArrayInto(data, at, dlen, children);
    case _ =>
      hide Encode, EncodeLength, Outside, Encodable, Holds;
      n := EncodePlain(data, at, dlen, v);
  }

  /** Everything but an array. */
  method EncodePlain(data: array<byte>, at: nat, dlen: nat, v: Value) returns (n: nat)
    requires !v.Arr? && Encodable(v) && at + EncodeLength(v) <= data.Length
    modifies data
    ensures n == if EncodeLength(v) <= dlen then EncodeLength(v) else 0
    ensures Outside(old(data[..]), data[..], at, at + EncodeLength(v))
    ensures n > 0 ==> Holds(data[..], at, n, Encode(v))
  {
    hide EncodeU29, LengthU29, Outside, Reversed, DoubleOf, Holds;
    match v
    case Integer(u) =>
      if u > INTEGER_MAX {
        n := EncodeDouble(data, at, dlen, DoubleOf(u));
      } else {
        n := EncodeHead(data, at, dlen, 4, u);
      }
    case SInteger(i) => n := EncodeHead(data, at, dlen, 13, ToUnsigned(i));
    case Double(mem) => n := EncodeDouble(data, at, dlen, mem);
    case Str(s) => n := EncodePart(data, at, dlen, 6, 2 * |s| + 1, s);
    case ByteArray(s) => n := EncodePart(data, at, dlen, 12, 2 * |s| + 1, s);
    case Undefined => n := EncodeMark(data, at, dlen, 0);
    case False => n := EncodeMark(data, at, dlen, 2);
    case True => n := EncodeMark(data, at, dlen, 3);
    case Null => n := EncodeMark(data, at, dlen, 1);
    case NoValue => n := EncodeMark(data, at, dlen, 1);
  }

  /** A value that is its type. */
  method EncodeMark(data: array<byte>, at: nat, dlen: nat, tag: byte) returns (n: nat)
    requires at < data.Length
    modifies data
    ensures n == if 1 <= dlen then 1 else 0
    ensures Outside(old(data[..]), data[..], at, at + 1) && (n > 0 ==> Holds(data[..], at, 1, [tag]))
  {
    if dlen < 1 {
      return 0;
    }
    Put(data, at, [tag]);
    return 1;
  }

  /** An array is its head and its children, and so are its length and its checks. */
  lemma ArrayFacts(children: seq<Value>, dlen: nat)
    requires Encodable(Arr(children))
    ensures var v, size := Arr(children), HeadLength(2 * |children| + 1) + 1;
      && |children| < LENGTH_LIMIT && (forall c :: c in children ==> Encodable(c))
      && Encode(v) == ([9] + (EncodeU29(2 * |children| + 1) + [1])) + EncodeAll(children)
      && EncodeLength(v) == size + EncodeLengths(children)
      && Told(v, dlen) == (if size <= dlen then size else 0) + ToldAll(children, dlen)
      && (Longest(v) <= dlen <==> size <= dlen && LongestOf(children) <= dlen)
  {
    hide EncodeU29, LengthU29, EncodeLengths, EncodeAll, ToldAll, LongestOf;
  }

  method EncodeArrayInto(data: array<byte>, at: nat, dlen: nat, children: seq<Value>) returns (n: nat)
    requires Encodable(Arr(children)) && at + EncodeLength(Arr(children)) <= data.Length
    modifies data
    ensures n == Told(Arr(children), dlen)
    ensures Outside(old(data[..]), data[..], at, at + EncodeLength(Arr(children)))
    ensures Longest(Arr(children)) <= dlen ==> Holds(data[..], at, EncodeLength(Arr(children)), Encode(Arr(children)))
    decreases children, 3
  {
    hide Encodable, Encode, EncodeAll, EncodeLength, EncodeLengths, EncodeU29, HeadLength, Told, ToldAll, Longest, LongestOf, Outside, Holds;
    ArrayFacts(children, dlen);
    ghost var was, size := data[..], HeadLength(2 * |children| + 1) + 1;
    var wlen := EncodePart(data, at, dlen, 9, 2 * |children| + 1, [1]);
    ghost var mid := data[..];
    var more := EncodeChildren(data, at + wlen, dlen, children);
    ArrayPieces(was, mid, data[..], at, wlen, size, EncodeLengths(children));
    if Longest(Arr(children)) <= dlen {
      HoldsMore(mid, data[..], at, size, EncodeLengths(children), [9] + (EncodeU29(2 * |children| + 1) + [1]), EncodeAll(children));
    }
    n := wlen + more;
  }

  /** Head and children of an array; without its head the children start where it should be. */
  lemma ArrayPieces(was: seq<byte>, mid: seq<byte>, now: seq<byte>, at: nat, wlen: nat, size: nat, more: nat)
    requires (wlen == 0 || wlen == size) && at + size + more <= |was|
    requires Outside(was, mid, at, at + size) && Outside(mid, now, at + wlen, at + wlen + more)
    ensures Outside(was, now, at, at + size + more)
  {
    hide Outside;
    var end := at + size + more;
    if wlen == 0 {
      OutsideWiden(was, mid, at, at + size, at, end);
      OutsideWiden(mid, now, at, at + more, at, end);
      OutsideTrans(was, mid, now, at, end);
    } else {
      TwoPieces(was, mid, now, at, size, more);
    }
  }

  /** The loop over the children, all of which are told the same length. */
  method EncodeChildren(data: array<byte>, at: nat, dlen: nat, children: seq<Value>) returns (n: nat)
    requires (forall v :: v in children ==> Encodable(v)) && at + EncodeLengths(children) <= data.Length
    modifies data
    ensures n == ToldAll(children, dlen)
    ensures Outside(old(data[..]), data[..], at, at + EncodeLengths(children))
    ensures LongestOf(children) <= dlen ==> Holds(data[..], at, EncodeLengths(children), EncodeAll(children))
    decreases children, 2
  {
    hide Encodable, Encode, EncodeLength, EncodeLengths, Told, Longest, Outside, EncodeAll, ToldAll, LongestOf, Holds;
    ghost var was, end := data[..], at + EncodeLengths(children);
    n := 0;
    var i := 0;
    StartChildren(was, at, children, end, dlen);
    while i < |children|
      invariant 0 <= i <= |children|
      invariant n == ToldAll(children[..i], dlen) && Outside(was, data[..], at, end)
      invariant LongestOf(children) <= dlen ==> Holds(data[..], at, n, EncodeAll(children[..i]))
    {
      OneMore(children, i, dlen);
      EncodeAllSnoc(children[..i], children[i]);
      assert children[..i] + [children[i]] == children[..i + 1];
      n := EncodeChild(data, at, n, dlen, children[i], LongestOf(children) <= dlen, EncodeAll(children[..i]), was, end);
      i := i + 1;
    }
    assert children[..i] == children;
    ChecksExactlyAll(children, dlen);
  }

  lemma StartChildren(was: seq<byte>, at: nat, children: seq<Value>, end: nat, dlen: nat)
    requires at <= end <= |was|
    ensures children[..0] == [] && ToldAll([], dlen) == 0 && Outside(was, was, at, end) && Holds(was, at, 0, EncodeAll([]))
  {
    assert ToldAll([], dlen) == 0;
  }

  /** One more child in front of the others. */
  lemma {:induction false} OneMore(vs: seq<Value>, i: nat, dlen: nat)
    requires (forall v :: v in vs ==> Encodable(v)) && i < |vs|
    ensures ToldAll(vs[..i + 1], dlen) == ToldAll(vs[..i], dlen) + Told(vs[i], dlen)
    ensures ToldAll(vs[..i], dlen) + EncodeLength(vs[i]) <= EncodeLengths(vs)
    ensures LongestOf(vs) <= dlen ==> Longest(vs[i]) <= dlen
  {
    hide Told, Longest, EncodeLength;
    ChecksExactly(vs[0], dlen);
    if i == 0 {
      assert vs[..0] == [] && vs[..1][1..] == [];
      assert ToldAll(vs[..1], dlen) == Told(vs[0], dlen) + ToldAll([], dlen);
    } else {
      OneMore(vs[1..], i - 1, dlen);
      assert vs[..i][1..] == vs[1..][..i - 1] && vs[..i + 1][1..] == vs[1..][..i];
    }
  }

  /** One turn of the loop over the children; fits says that none of them is too long. */
  method EncodeChild(data: array<byte>, at: nat, n: nat, dlen: nat, v: Value, ghost fits: bool, ghost text: seq<byte>,
                     ghost was: seq<byte>, ghost end: nat) returns (n': nat)
    requires Encodable(v) && at + n + EncodeLength(v) <= end <= data.Length && Outside(was, data[..], at, end)
    requires fits ==> Longest(v) <= dlen && Holds(data[..], at, n, text)
    modifies data
    ensures n' == n + Told(v, dlen) && Outside(was, data[..], at, end)
    ensures fits ==> Holds(data[..], at, n', text + Encode(v))
    decreases v, 2
  {
    ChecksExactly(v, dlen);
    LengthIsExact(v);
    hide *;
    ghost var mid, size := data[..], EncodeLength(v);
    var m := EncodeInto(data, at + n, dlen, v);
    ghost var now := data[..];
    OutsideWiden(mid, now, at + n, at + n + size, at, end);
    OutsideTrans(was, mid, now, at, end);
    if fits {
      HoldsMore(mid, now, at, n, size, text, Encode(v));
    }
    n' := n + m;
  }

  /** send_amf_message: a buffer of exactly the announced length is filled exactly. */
  method EncodeMessage(v: Value) returns (message: array<byte>, n: nat)
    requires Encodable(v)
    ensures fresh(message) && n == message.Length == EncodeLength(v) && message[..] == Encode(v)
  {
    var len := EncodeLength(v);
    message := new byte[len];
    ChecksExactly(v, len);
    hide Encode, EncodeLength, Told, Longest, Encodable;
    n := EncodeInto(message, 0, len, v);
    assert message[..] == message[..][0..len];
  }

  /** amf_read with its string table. */
  class Reader {
    var table: seq<seq<byte>>  // string_ref[..cur_ref]

    method Read(data: seq<byte>) returns (o: Outcome)
      modifies this
      ensures o == Decode(data, [])
    {
      table := [];
      o := ReadValue(data);
    }

    /** _read_amf. */
    method ReadValue(data: seq<byte>) returns (o: Outcome)
      modifies this
      ensures o == Decode(data, old(table)) && (o.Ok? ==> table == o.table)
      decreases |data|, 1
    {
      hide DecodeU29, DecodeAll, Reversed, DecodeString, DecodeByteArray;
      if data == [] {
        return Fault;
      }
      match data[0]
      case 0 => o := Ok(Undefined, data[1..], table);
      case 1 => o := Ok(Null, data[1..], table);
      case 2 => o := Ok(False, data[1..], table);
      case 3 => o := Ok(True, data[1..], table);
      case 4 => o := ReadInteger(data);
      case 5 => o := ReadDouble(data);
      case 6 => o := ReadString(data);
      case 9 => o := ReadArray(data);
      case 12 => o := ReadByteArray(data);
      case 13 => o := ReadSInteger(data);
      case _ => o := Fail;
    }

    /** _read_integer: without its number the value is what the stack held. */
    method ReadInteger(data: seq<byte>) returns (o: Outcome)
      requires data != [] && data[0] == 4
      ensures o == Decode(data, table) && (o.Ok? ==> table == o.table)
    {
      hide DecodeU29;
      var u := ReadU29(data[1..]);
      o := if u.None? then Fault else Ok(Integer(u.value.n), data[1 + u.value.used..], table);
    }

    /** _read_sinteger: without its number the value is zero and nothing is consumed. */
    method ReadSInteger(data: seq<byte>) returns (o: Outcome)
      requires data != [] && data[0] == 13
      ensures o == Decode(data, table) && (o.Ok? ==> table == o.table)
    {
      hide DecodeU29;
      var u := ReadU29(data[1..]);
      o := if u.None? then Ok(SInteger(0), data, table) else Ok(SInteger(ToSigned(u.value.n)), data[1 + u.value.used..], table);
    }

    /** _read_double: eight bytes from the last to the first. */
    method ReadDouble(data: seq<byte>) returns (o: Outcome)
      requires data != [] && data[0] == 5
      ensures o == Decode(data, table) && (o.Ok? ==> table == o.table)
    {
      if |data| < 9 {
        return Fault;
      }
      var c: seq<byte> := [];
      for i := 0 to 8
        invariant c == Reversed(data[9 - i..9])
      {
        ReversedSnocFront(data[8 - i], data[9 - i..9]);
        assert data[8 - i..9] == [data[8 - i]] + data[9 - i..9];
        c := c + [data[8 - i]];
      }
      o := Ok(Double(c), data[9..], table);
    }

    /** _read_byte_array: like a string, but without the table. */
    method ReadByteArray(data: seq<byte>) returns (o: Outcome)
      requires data != [] && data[0] == 12
      ensures o == Decode(data, table) && (o.Ok? ==> table == o.table)
    {
      hide DecodeU29;
      var len := ReadU29(data[1..]);
      if len.None? {
        return Ok(ByteArray([]), data, table);
      }
      var n, rest := len.value.n / 2, data[1 + len.value.used..];
      o := if |rest| < n then Ok(ByteArray([]), data, table) else Ok(ByteArray(rest[..n]), rest[n..], table);
    }

    /** amf_decode_array. */
    method ReadArrayHeader(data: seq<byte>) returns (r: Option<ArrayHeader>)
      requires data != []
      ensures r == DecodeArrayHeader(data)
    {
      hide DecodeU29;
      var len := ReadU29(data[1..]);
      if len.None? || len.value.n % 2 == 0 {
        return None;
      }
      var rest := data[1 + len.value.used..];
      if rest == [] || rest[0] != 1 {
        return None;
      }
      return Some(ArrayHeader(len.value.n / 2, rest[1..]));
    }

    /** _read_string. */
    method ReadString(data: seq<byte>) returns (o: Outcome)
      requires data != []
      modifies this
      ensures o == DecodeString(data, old(table)) && (o.Ok? ==> table == o.table)
    {
      hide DecodeU29;
      var len := ReadU29(data[1..]);
      if len.None? {
        return Ok(Str([]), data, table);
      }
      var n, rest := len.value.n / 2, data[1 + len.value.used..];
      if len.value.n % 2 == 0 {
        o := if n >= |table| then Ok(Str([]), data, table) else Ok(Str(table[n]), rest, table);
      } else if |rest| < n {
        o := Ok(Str([]), data, table);
      } else if |table| >= TABLE {
        o := Fault;
      } else {
        table := table + [rest[..n]];
        o := Ok(Str(rest[..n]), rest[n..], table);
      }
    }

    /** _read_array: read the children one after the other. */
    method ReadArray(data: seq<byte>) returns (o: Outcome)
      requires data != [] && data[0] == 9
      modifies this
      ensures o == Decode(data, old(table)) && (o.Ok? ==> table == o.table)
      decreases |data|, 0
    {
      var h := ReadArrayHeader(data);
      if h.None? {
        return Fail;
      }
      hide Decode;
      var children, rest, i := [], h.value.rest, 0;
      ghost var all := DecodeAll(h.value.rest, h.value.count, table);
      NothingRead(all);
      while i < h.value.count
        invariant 0 <= i <= h.value.count && |rest| <= |h.value.rest|
        invariant all == After(children, DecodeAll(rest, h.value.count - i, table))
      {
        var c := ReadValue(rest);
        match c
        case Fail => return Fail;
        case Fault => return Fault;
        case Ok(v, r, t) =>
          OneRead(children, v, DecodeAll(r, h.value.count - i - 1, t));
          children, rest := children + [v], r;
        i := i + 1;
      }
      assert children + [] == children;
      o := Ok(Arr(children), rest, table);
    }
  }

  lemma ReversedSnocFront(b: byte, s: seq<byte>)
    ensures Reversed([b] + s) == Reversed(s) + [b]
  {
    assert ([b] + s)[1..] == s;
  }

  ghost function After(done: seq<Value>, more: Outcomes): Outcomes {
    if more.Oks? then Oks(done + more.values, more.rest, more.table) else more
  }

  lemma NothingRead(all: Outcomes)
    ensures After([], all) == all
  {
    if all.Oks? { assert [] + all.values == all.values; }
  }

  lemma OneRead(done: seq<Value>, v: Value, more: Outcomes)
    ensures After(done, if more.Oks? then Oks([v] + more.values, more.rest, more.table) else more) == After(done + [v], more)
  {
    if more.Oks? { assert done + ([v] + more.values) == (done + [v]) + more.values; }
  }
}
