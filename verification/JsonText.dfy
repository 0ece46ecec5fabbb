/** Strings in the JSON text of framework/cJSON.c: escaping, and the two passes that undo it. */
module JsonText {
  import opened Wrappers
  import opened Sequences
  import opened Bytes

  const QUOTE: byte := 34
  const BACKSLASH: byte := 92

  // ---------- printing: print_string_ptr ----------

  /** One digit of "%04x". */
  function HexDigit(n: nat): byte
    requires n < 16
  {
    if n < 10 then 48 + n else 87 + n
  }

  function EscapeByte(b: byte): (e: seq<byte>)
    ensures |e| == 1 || |e| == 2 || |e| == 6
  {
    if b == QUOTE || b == BACKSLASH then [BACKSLASH, b]
    else if b == 8 then [BACKSLASH, 98]
    else if b == 12 then [BACKSLASH, 102]
    else if b == 10 then [BACKSLASH, 110]
    else if b == 13 then [BACKSLASH, 114]
    else if b == 9 then [BACKSLASH, 116]
    else if b < 32 then [BACKSLASH, 117, 48, 48, HexDigit(b / 16), HexDigit(b % 16)]
    else [b]
  }

  function Escape(s: seq<byte>): seq<byte> {
    if s == [] then [] else EscapeByte(s[0]) + Escape(s[1..])
  }

  function Quoted(s: seq<byte>): seq<byte> {
    [QUOTE] + Escape(s) + [QUOTE]
  }

  /** The bytes a character adds when escaped, as the counting pass of print_string_ptr has it. */
  function Extra(b: byte): nat {
    if b in {QUOTE, BACKSLASH, 8, 12, 10, 13, 9} then 1 else if b < 32 then 5 else 0
  }

  lemma ExtraIs(b: byte)
    ensures |EscapeByte(b)| == 1 + Extra(b)
  {
  }

  lemma {:induction false} EscapeSnoc(s: seq<byte>, b: byte)
    ensures Escape(s + [b]) == Escape(s) + EscapeByte(b)
  {
    hide EscapeByte;
    if s == [] {
      assert s + [b] == [b] && Escape([b]) == EscapeByte(b) + Escape([]);
    } else {
      EscapeSnoc(s[1..], b);
      assert (s + [b])[1..] == s[1..] + [b];
      Assoc(EscapeByte(s[0]), Escape(s[1..]), EscapeByte(b));
    }
  }

  lemma {:induction false} EscapeGrows(s: seq<byte>, i: nat)
    requires i < |s|
    ensures |Escape(s[..i])| + |EscapeByte(s[i])| <= |Escape(s)|
  {
    if i == 0 {
      assert Escape(s[..0]) == [];
    } else {
      EscapeGrows(s[1..], i - 1);
      assert s[..i][1..] == s[1..][..i - 1];
    }
  }

  /** The counting pass of print_string_ptr. */
  method CountEscapes(input: seq<byte>) returns (escapes: nat)
    ensures |input| + escapes == |Escape(input)|
  {
    hide EscapeByte, Extra;
    escapes := 0;
    var i := 0;
    assert input[..0] == [];
    while i < |input|
      invariant 0 <= i <= |input| && i + escapes == |Escape(input[..i])|
    {
      EscapeSnoc(input[..i], input[i]);
      assert input[..i] + [input[i]] == input[..i + 1];
      ExtraIs(input[i]);
      escapes := escapes + Extra(input[i]);
      i := i + 1;
    }
    assert input[..i] == input;
  }

  /** The copying pass of print_string_ptr, behind the first o0 bytes. */
  method CopyEscaped(input: seq<byte>, out: array<byte>, o0: nat) returns (o: nat)
    requires o0 + |Escape(input)| <= out.Length
    modifies out
    ensures o == o0 + |Escape(input)| && out[..o] == old(out[..o0]) + Escape(input)
  {
    assert Escape([]) == [];
    hide EscapeByte, Escape;
    ghost var before := out[..o0];
    o := o0;
    var i := 0;
    assert input[..0] == [];
    while i < |input|
      invariant 0 <= i <= |input| && o == o0 + |Escape(input[..i])| <= o0 + |Escape(input)|
      invariant out[..o] == before + Escape(input[..i])
    {
      EscapeSnoc(input[..i], input[i]);
      EscapeGrows(input, i);
      assert input[..i] + [input[i]] == input[..i + 1];
      Assoc(before, Escape(input[..i]), EscapeByte(input[i]));
      o := Copy(out, o, EscapeByte(input[i]));
      i := i + 1;
    }
    assert input[..i] == input;
  }

  /** A text that grows by nothing has nothing to escape. */
  lemma {:induction false} NothingToEscape(s: seq<byte>)
    ensures |Escape(s)| >= |s| && (|Escape(s)| == |s| ==> Escape(s) == s)
  {
    if s != [] {
      NothingToEscape(s[1..]);
      ExtraIs(s[0]);
    }
  }

  /** Write the bytes behind the first o and answer the new end. */
  method Copy(out: array<byte>, o: nat, e: seq<byte>) returns (o': nat)
    requires o + |e| <= out.Length
    modifies out
    ensures o' == o + |e| && out[..o'] == old(out[..o]) + e && out[o'..] == old(out[o'..])
  {
    forall k | 0 <= k < |e| {
      out[o + k] := e[k];
    }
    o' := o + |e|;
  }

  // ---------- parsing: parse_hex4, utf16_literal_to_utf8, parse_string ----------

  function HexValue(b: byte): Option<nat> {
    if 48 <= b <= 57 then Some(b - 48)
    else if 65 <= b <= 70 then Some(b - 55)
    else if 97 <= b <= 102 then Some(b - 87)
    else None
  }

  /** parse_hex4: a bad digit makes the whole number 0. */
  function Hex4(c: seq<byte>, at: nat): (n: nat)
    requires at + 4 <= |c|
    ensures n < 0x1_0000
  {
    var d0, d1, d2, d3 := HexValue(c[at]), HexValue(c[at + 1]), HexValue(c[at + 2]), HexValue(c[at + 3]);
    if d0.Some? && d1.Some? && d2.Some? && d3.Some?
    then 4096 * d0.value + 256 * d1.value + 16 * d2.value + d3.value
    else 0
  }

  /** The UTF-8 form of a code point. */
  function Utf8(cp: nat): (u: seq<byte>)
    requires cp <= 0x10FFFF
    ensures 1 <= |u| <= 4
    ensures |u| == 4 <==> cp >= 0x1_0000
  {
    if cp < 0x80 then [cp]
    else if cp < 0x800 then [0xC0 + cp / 64, 0x80 + cp % 64]
    else if cp < 0x1_0000 then [0xE0 + cp / 4096, 0x80 + cp / 64 % 64, 0x80 + cp % 64]
    else [0xF0 + cp / 0x4_0000, 0x80 + cp / 4096 % 64, 0x80 + cp / 64 % 64, 0x80 + cp % 64]
  }

  /** 0x10000 + (((first & 0x3FF) << 10) | (second & 0x3FF)) */
  function SurrogatePair(first: nat, second: nat): (cp: nat)
    ensures 0x1_0000 <= cp <= 0x10FFFF
  {
    0x1_0000 + first % 1024 * 1024 + second % 1024
  }

  datatype Literal = Literal(length: nat, bytes: seq<byte>)

  /** utf16_literal_to_utf8 at p, in a string that ends before end. */
  function Utf16Literal(c: seq<byte>, p: nat, end: nat): (r: Option<Literal>)
    requires p <= end <= |c|
    ensures r.Some? ==> p + r.value.length <= end
                        && ((r.value.length == 6 && 1 <= |r.value.bytes| <= 3) || (r.value.length == 12 && |r.value.bytes| == 4))
  {
    if end - p < 6 then None
    else
      var first := Hex4(c, p + 2);
      if 0xDC00 <= first <= 0xDFFF then None
      else if 0xD800 <= first <= 0xDBFF then
        if end - (p + 6) < 6 then None
        else if c[p + 6] != BACKSLASH || c[p + 7] != 117 then None
        else
          var second := Hex4(c, p + 8);
          if second < 0xDC00 || second > 0xDFFF then None
          else Some(Literal(12, Utf8(SurrogatePair(first, second))))
      else Some(Literal(6, Utf8(first)))
  }

  /** Strict UTF-8 decoding of one character, section 3 of RFC 3629: the shortest form only, no
      surrogates, nothing above U+10FFFF. */
  function Utf8Value(u: seq<byte>): Option<nat> {
    if exists i :: 1 <= i < |u| && !(0x80 <= u[i] < 0xC0) then None
    else if |u| == 1 && u[0] < 0x80 then Some(u[0])
    else if |u| == 2 && 0xC2 <= u[0] < 0xE0 then Some((u[0] as int - 0xC0) * 64 + (u[1] - 0x80))
    else if |u| == 3 && 0xE0 <= u[0] < 0xF0 then
      var n := (u[0] as int - 0xE0) * 4096 + (u[1] as int - 0x80) * 64 + (u[2] - 0x80);
      if n < 0x800 || 0xD800 <= n <= 0xDFFF then None else Some(n)
    else if |u| == 4 && 0xF0 <= u[0] < 0xF8 then
      var n := (u[0] as int - 0xF0) * 0x4_0000 + (u[1] as int - 0x80) * 4096 + (u[2] as int - 0x80) * 64 + (u[3] - 0x80);
      if n < 0x1_0000 || n > 0x10FFFF then None else Some(n)
    else None
  }

  lemma Utf8RoundTrip(cp: nat)
    requires cp <= 0x10FFFF && !(0xD800 <= cp <= 0xDFFF)
    ensures Utf8Value(Utf8(cp)) == Some(cp)
  {
    assert cp == cp / 64 * 64 + cp % 64;
    assert cp / 64 == cp / 4096 * 64 + cp / 64 % 64;
    assert cp / 4096 == cp / 0x4_0000 * 64 + cp / 4096 % 64;
  }

  /** The code point that a UTF-16 unit, or a surrogate pair, stands for. */
  function Utf16Value(units: seq<nat>): Option<nat> {
    if |units| == 1 && !(0xD800 <= units[0] <= 0xDFFF) then Some(units[0])
    else if |units| == 2 && 0xD800 <= units[0] <= 0xDBFF && 0xDC00 <= units[1] <= 0xDFFF
    then Some(0x1_0000 + (units[0] - 0xD800) * 1024 + (units[1] - 0xDC00))
    else None
  }

  lemma SurrogatePairIs(first: nat, second: nat)
    requires 0xD800 <= first <= 0xDBFF && 0xDC00 <= second <= 0xDFFF
    ensures Utf16Value([first, second]) == Some(SurrogatePair(first, second))
  {
  }

  /** Every literal that is accepted is valid UTF-16 and comes out as the valid UTF-8 of its code point. */
  lemma LiteralIsUtf8(c: seq<byte>, p: nat, end: nat)
    requires p <= end <= |c| && Utf16Literal(c, p, end).Some?
    ensures var l := Utf16Literal(c, p, end).value;
            var units := if l.length == 12 then [Hex4(c, p + 2), Hex4(c, p + 8)] else [Hex4(c, p + 2)];
            Utf16Value(units).Some? && Utf8Value(l.bytes) == Utf16Value(units)
  {
    var first := Hex4(c, p + 2);
    if 0xD800 <= first <= 0xDBFF {
      var second := Hex4(c, p + 8);
      SurrogatePairIs(first, second);
      Utf8RoundTrip(SurrogatePair(first, second));
    } else {
      Utf8RoundTrip(first);
    }
  }

  /** First pass of parse_string: the closing quote, skipping every escaped character. */
  function FindEnd(c: seq<byte>, p: nat): (r: Option<nat>)
    ensures r.Some? ==> p <= r.value < |c| && c[r.value] == QUOTE
    decreases |c| - p
  {
    if p >= |c| then None
    else if c[p] == QUOTE then Some(p)
    else if c[p] != BACKSLASH then FindEnd(c, p + 1)
    else if p + 1 >= |c| then None
    else FindEnd(c, p + 2)
  }

  /** The character that a two-character escape stands for. */
  function Unescaped(b: byte): Option<byte> {
    if b == 98 then Some(8)
    else if b == 102 then Some(12)
    else if b == 110 then Some(10)
    else if b == 114 then Some(13)
    else if b == 116 then Some(9)
    else if b == QUOTE || b == BACKSLASH || b == 47 then Some(b)
    else None
  }

  /** How many characters a turn of the second pass may read for how many bytes. */
  predicate Shape(read: nat, wrote: nat) {
    (read == wrote == 1) || (read == 2 && wrote == 1) || (read == 6 && wrote <= 3) || (read == 12 && wrote == 4)
  }

  /** One turn of the second pass: the characters read at p and the bytes they stand for. */
  function Piece(c: seq<byte>, p: nat, end: nat): (r: Option<Literal>)
    requires p < end < |c|
    ensures r.Some? ==> 0 < r.value.length && p + r.value.length <= end + 1 && Shape(r.value.length, |r.value.bytes|)
    ensures r.Some? && r.value.length == 1 ==> c[p] != BACKSLASH
  {
    if c[p] != BACKSLASH then Some(Literal(1, [c[p]]))
    else if c[p + 1] == 117 then Utf16Literal(c, p, end)
    else
      var ch := Unescaped(c[p + 1]);
      if ch.None? then None else Some(Literal(2, [ch.value]))
  }

  /** Second pass of parse_string. */
  function Unescape(c: seq<byte>, p: nat, end: nat): Option<seq<byte>>
    requires end < |c|
    decreases |c| - p
  {
    if p >= end then Some([])
    else
      var piece := Piece(c, p, end);
      if piece.None? then None
      else
        var rest := Unescape(c, p + piece.value.length, end);
        if rest.None? then None else Some(piece.value.bytes + rest.value)
  }

  datatype Parsed<+T> = Parsed(value: T, offset: nat)

  /** parse_string at an offset of the text: the string and the offset behind its closing quote. */
  function ParseString(c: seq<byte>, at: nat): (r: Option<Parsed<seq<byte>>>)
    requires at < |c|
    ensures r.Some? ==> at < r.value.offset <= |c|
  {
    if c[at] != QUOTE then None
    else
      var end := FindEnd(c, at + 1);
      if end.None? then None
      else
        var s := Unescape(c, at + 1, end.value);
        if s.None? then None else Some(Parsed(s.value, end.value + 1))
  }

  // ---------- what was printed parses back ----------

  /** The text holds t from p on. */
  predicate Holds(c: seq<byte>, p: nat, t: seq<byte>) {
    p + |t| <= |c| && c[p..p + |t|] == t
  }

  lemma HoldsSplit(c: seq<byte>, p: nat, s: seq<byte>, t: seq<byte>)
    requires Holds(c, p, s + t)
    ensures Holds(c, p, s) && Holds(c, p + |s|, t)
  {
    assert c[p..p + |s|] == (s + t)[..|s|];
    assert c[p + |s|..p + |s| + |t|] == (s + t)[|s|..];
  }

  lemma HoldsAt(c: seq<byte>, p: nat, t: seq<byte>, k: nat)
    requires Holds(c, p, t) && k < |t|
    ensures c[p + k] == t[k]
  {
    assert c[p..p + |t|][k] == c[p + k];
  }

  /** The six bytes of a control character written as \u00XX. */
  lemma ControlBack(c: seq<byte>, p: nat, b: byte, end: nat)
    requires 0 < b < 32 && Holds(c, p, [BACKSLASH, 117, 48, 48, HexDigit(b / 16), HexDigit(b % 16)]) && p + 6 <= end < |c|
    ensures c[p] == BACKSLASH && c[p + 1] == 117
    ensures FindEnd(c, p) == FindEnd(c, p + 6)
    ensures Utf16Literal(c, p, end) == Some(Literal(6, [b]))
  {
    var e := [BACKSLASH, 117, 48, 48, HexDigit(b / 16), HexDigit(b % 16)];
    assert forall k :: 0 <= k < 6 ==> c[p + k] == c[p..p + 6][k] == e[k];
    assert c[p + 2] == e[2] && c[p + 3] == e[3] && c[p + 4] == e[4] && c[p + 5] == e[5];
    assert FindEnd(c, p) == FindEnd(c, p + 2) == FindEnd(c, p + 3);
    assert FindEnd(c, p + 3) == FindEnd(c, p + 4);
    assert FindEnd(c, p + 4) == FindEnd(c, p + 5) == FindEnd(c, p + 6);
    assert Hex4(c, p + 2) == b;
  }

  lemma EscapeByteBack(c: seq<byte>, p: nat, b: byte, end: nat)
    requires b != 0 && Holds(c, p, EscapeByte(b)) && p + |EscapeByte(b)| <= end < |c|
    ensures FindEnd(c, p) == FindEnd(c, p + |EscapeByte(b)|)
    ensures Piece(c, p, end) == Some(Literal(|EscapeByte(b)|, [b]))
  {
    var e := EscapeByte(b);
    HoldsAt(c, p, e, 0);
    if |e| == 2 {
      HoldsAt(c, p, e, 1);
    } else if |e| == 6 {
      ControlBack(c, p, b, end);
    }
  }

  lemma UnescapeStep(c: seq<byte>, p: nat, end: nat, n: nat, b: seq<byte>, t: seq<byte>)
    requires p < end < |c| && Piece(c, p, end) == Some(Literal(n, b)) && Unescape(c, p + n, end) == Some(t)
    ensures Unescape(c, p, end) == Some(b + t)
  {
    hide Piece;
  }

  lemma {:induction false} EscapeBack(c: seq<byte>, p: nat, s: seq<byte>, end: nat)
    requires 0 !in s && Holds(c, p, Escape(s)) && p + |Escape(s)| == end < |c| && c[end] == QUOTE
    ensures FindEnd(c, p) == Some(end) && Unescape(c, p, end) == Some(s)
    decreases |s|
  {
    if s != [] {
      var e, t := EscapeByte(s[0]), s[1..];
      assert Escape(s) == e + Escape(t) && [s[0]] + t == s;
      hide *;
      HoldsSplit(c, p, e, Escape(t));
      EscapeBack(c, p + |e|, t, end);
      EscapeStep(c, p, s[0], t, end);
    }
  }

  lemma EscapeStep(c: seq<byte>, p: nat, b: byte, t: seq<byte>, end: nat)
    requires b != 0 && Holds(c, p, EscapeByte(b)) && p + |EscapeByte(b)| <= end < |c|
    requires FindEnd(c, p + |EscapeByte(b)|) == Some(end) && Unescape(c, p + |EscapeByte(b)|, end) == Some(t)
    ensures FindEnd(c, p) == Some(end) && Unescape(c, p, end) == Some([b] + t)
  {
    EscapeByteBack(c, p, b, end);
    UnescapeStep(c, p, end, |EscapeByte(b)|, [b], t);
    hide *;
  }

  lemma QuotedHolds(c: seq<byte>, at: nat, s: seq<byte>)
    requires Holds(c, at, Quoted(s))
    ensures var end := at + 1 + |Escape(s)|;
            end + 1 == at + |Quoted(s)| <= |c| && c[at] == c[end] == QUOTE && Holds(c, at + 1, Escape(s))
  {
    HoldsSplit(c, at, [QUOTE] + Escape(s), [QUOTE]);
    HoldsSplit(c, at, [QUOTE], Escape(s));
    HoldsAt(c, at, [QUOTE], 0);
    HoldsAt(c, at + 1 + |Escape(s)|, [QUOTE], 0);
  }

  /** Every NUL-free string comes back from its printed form, whatever follows it. */
  lemma StringRoundTrip(c: seq<byte>, at: nat, s: seq<byte>)
    requires 0 !in s && Holds(c, at, Quoted(s))
    ensures at < |c| && ParseString(c, at) == Some(Parsed(s, at + |Quoted(s)|))
  {
    hide Quoted, Holds, FindEnd, Unescape, Escape;
    QuotedHolds(c, at, s);
    EscapeBack(c, at + 1, s, at + 1 + |Escape(s)|);
  }

  // ---------- the two passes as the source runs them ----------

  /** How many of the first n marks are set. */
  ghost function Count(marks: seq<bool>, n: nat): nat
    requires n <= |marks|
  {
    if n == 0 then 0 else Count(marks, n - 1) + if marks[n - 1] then 1 else 0
  }

  ghost predicate Sparse(marks: seq<bool>) {
    forall i :: 0 <= i < |marks| && marks[i] ==> i + 1 < |marks| && !marks[i + 1]
  }

  lemma {:induction false} CountPrefix(m: seq<bool>, x: seq<bool>, n: nat)
    requires n <= |m|
    ensures Count(m + x, n) == Count(m, n)
  {
    if n > 0 { CountPrefix(m, x, n - 1); }
  }

  /** In any 2k consecutive characters the first pass sees at most k escapes begin. */
  lemma {:induction false} CountWindow(marks: seq<bool>, p: nat, k: nat)
    requires Sparse(marks) && p + 2 * k <= |marks|
    ensures Count(marks, p + 2 * k) <= Count(marks, p) + k
  {
    if k > 0 {
      CountWindow(marks, p, k - 1);
      var q := p + 2 * k - 2;
      assert Count(marks, q + 2) == Count(marks, q) + (if marks[q] then 1 else 0) + (if marks[q + 1] then 1 else 0);
    }
  }

  lemma {:induction false} CountSlack(marks: seq<bool>, p: nat, q: nat)
    requires p <= q <= |marks|
    ensures Count(marks, q) <= Count(marks, p) + (q - p)
    decreases q
  {
    if p < q { CountSlack(marks, p, q - 1); }
  }

  /** First pass of parse_string. The marks say at which characters it saw an escape begin. */
  method ScanString(c: seq<byte>, at: nat) returns (ok: bool, end: nat, skipped: nat, ghost marks: seq<bool>)
    requires at < |c|
    ensures ok <==> FindEnd(c, at + 1).Some?
    ensures ok ==> FindEnd(c, at + 1) == Some(end) && |marks| == end && Sparse(marks)
                   && skipped == Count(marks, end) && Count(marks, at + 1) == 0
                   && forall i :: 0 <= i < end && marks[i] ==> c[i] == BACKSLASH
  {
    end, skipped := at + 1, 0;
    marks := seq(at + 1, i => false);
    NoMarks(marks, at + 1);
    while end < |c| && c[end] != QUOTE
      invariant at + 1 <= end <= |c| && |marks| == end && Sparse(marks)
      invariant FindEnd(c, at + 1) == FindEnd(c, end)
      invariant skipped == Count(marks, end) && Count(marks, at + 1) == 0
      invariant forall i :: 0 <= i < end && marks[i] ==> c[i] == BACKSLASH
    {
      if c[end] == BACKSLASH {
        if end + 1 >= |c| {
          return false, end, skipped, marks;
        }
        CountPrefix(marks, [true, false], end);
        CountPrefix(marks, [true, false], at + 1);
        marks := marks + [true, false];
        assert Count(marks, end + 2) == Count(marks, end) + 1;
        skipped, end := skipped + 1, end + 2;
      } else {
        CountPrefix(marks, [false], end);
        CountPrefix(marks, [false], at + 1);
        marks := marks + [false];
        end := end + 1;
      }
    }
    ok := end < |c|;
  }

  lemma {:induction false} NoMarks(marks: seq<bool>, n: nat)
    requires n <= |marks| && forall i :: 0 <= i < n ==> !marks[i]
    ensures Count(marks, n) == 0
  {
    if n > 0 { NoMarks(marks, n - 1); }
  }

  /** What one turn of the second pass writes still fits: the bytes written, plus the escapes
      that the first pass saw begin so far, never exceed the characters passed. */
  lemma StillFits(marks: seq<bool>, start: nat, p: nat, w: nat, read: nat, wrote: nat)
    requires Sparse(marks) && p + read <= |marks|
    requires w + Count(marks, p) <= p - start
    requires Shape(read, wrote) && (read == 1 ==> !marks[p])
    ensures w + wrote + Count(marks, p + read) <= p + read - start
    ensures w + wrote + Count(marks, |marks|) <= |marks| - start
  {
    if read > 1 { CountWindow(marks, p, read / 2); }
    CountSlack(marks, p + read, |marks|);
  }

  /** The whole second pass gives what it wrote so far followed by what the rest will give. */
  ghost predicate Continues(c: seq<byte>, start: nat, end: nat, sofar: seq<byte>, p: nat)
    requires end < |c|
  {
    var rest := Unescape(c, p, end);
    Unescape(c, start, end) == if rest.None? then None else Some(sofar + rest.value)
  }

  lemma ContinuesAtStart(c: seq<byte>, start: nat, end: nat)
    requires end < |c|
    ensures Continues(c, start, end, [], start)
  {
    var rest := Unescape(c, start, end);
    if rest.Some? { assert [] + rest.value == rest.value; }
  }

  lemma ContinuesNext(c: seq<byte>, start: nat, end: nat, sofar: seq<byte>, p: nat)
    requires p < end < |c| && Continues(c, start, end, sofar, p)
    ensures var piece := Piece(c, p, end);
            if piece.None? then Unescape(c, start, end).None?
            else Continues(c, start, end, sofar + piece.value.bytes, p + piece.value.length)
  {
    var piece := Piece(c, p, end);
    if piece.Some? {
      var rest := Unescape(c, p + piece.value.length, end);
      if rest.Some? { Assoc(sofar, piece.value.bytes, rest.value); }
    }
  }

  lemma ContinuesAtEnd(c: seq<byte>, start: nat, end: nat, sofar: seq<byte>, p: nat)
    requires end <= p && end < |c| && Continues(c, start, end, sofar, p)
    ensures Unescape(c, start, end) == Some(sofar)
  {
    assert sofar + [] == sofar;
  }

  /** Second pass of parse_string, into an array of the size the first pass computed. Dafny's own
      bounds checks say that it never writes past that array. */
  method CopyString(c: seq<byte>, start: nat, end: nat, ghost marks: seq<bool>, out: array<byte>) returns (ok: bool, len: nat)
    requires start <= end < |c| && |marks| == end && Sparse(marks) && Count(marks, start) == 0
    requires forall i :: 0 <= i < end && marks[i] ==> c[i] == BACKSLASH
    requires out.Length >= end - start - Count(marks, end)
    modifies out
    ensures ok <==> Unescape(c, start, end).Some?
    ensures ok ==> len <= end - start - Count(marks, end) && Unescape(c, start, end) == Some(out[..len])
  {
    hide Continues, Unescape, Utf16Literal, Unescaped, Count;
    len := 0;
    var p := start;
    ContinuesAtStart(c, start, end);
    CountSlack(marks, start, end);
    assert out[..0] == [];
    while p < end
      invariant start <= p <= end + 1
      invariant len + Count(marks, end) <= end - start
      invariant p <= end ==> len + Count(marks, p) <= p - start
      invariant Continues(c, start, end, out[..len], p)
      decreases end + 1 - p
    {
      ContinuesNext(c, start, end, out[..len], p);
      var piece := Piece(c, p, end);
      if piece.None? {
        return false, len;
      }
      var Literal(read, bytes) := piece.value;
      StillFits(marks, start, p, len, if p + read <= end then read else 1, |bytes|);
      len := Copy(out, len, bytes);
      p := p + read;
    }
    ContinuesAtEnd(c, start, end, out[..len], p);
    ok := true;
  }

  /** parse_string: measure, allocate, copy, terminate. On success the output holds the string and
      its NUL; malformed \u digits that put the two passes out of step do no harm. */
  method ReadString(c: seq<byte>, at: nat) returns (ok: bool, out: array<byte>, len: nat, offset: nat)
    requires at < |c|
    ensures fresh(out) && (ok <==> ParseString(c, at).Some?)
    ensures ok ==> len < out.Length && out[len] == 0 && ParseString(c, at) == Some(Parsed(out[..len], offset))
  {
    hide FindEnd, Unescape, Count, Sparse;
    ok, out, len, offset := false, new byte[0], 0, at;
    if c[at] != QUOTE {
      return;
    }
    var found, end, skipped, marks := ScanString(c, at);
    if !found {
      return;
    }
    CountSlack(marks, at + 1, end);
    var allocation := end - at - skipped;
    out := new byte[allocation + 1];
    ok, len := CopyString(c, at + 1, end, marks, out);
    if ok {
      ghost var text := out[..len];
      out[len] := 0;
      assert out[..len] == text;
      offset := end + 1;
    }
  }
}
