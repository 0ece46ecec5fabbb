/**
  The strings of section 7 of RFC 8259, and what the string parser of framework/cJSON.c makes of them: the grammar
  generates many texts that the printer never writes.
 */
module JsonRfc {
  import opened Wrappers
  import opened Bytes
  import opened JsonText

  /** A character of a string: unescaped, with one of the eight short escapes, or as one or two \u escapes. */
  datatype Char = Plain(b: byte) | Short(e: byte) | Unit(d: seq<byte>) | Pair(hi: seq<byte>, lo: seq<byte>)

  /** The hexadecimal digits, with letters of either case. */
  function Digit(b: byte): Option<nat> {
    match b
    case 48 => Some(0) case 49 => Some(1) case 50 => Some(2) case 51 => Some(3) case 52 => Some(4)
    case 53 => Some(5) case 54 => Some(6) case 55 => Some(7) case 56 => Some(8) case 57 => Some(9)
    case 65 => Some(10) case 66 => Some(11) case 67 => Some(12) case 68 => Some(13) case 69 => Some(14) case 70 => Some(15)
    case 97 => Some(10) case 98 => Some(11) case 99 => Some(12) case 100 => Some(13) case 101 => Some(14) case 102 => Some(15)
    case _ => None
  }

  /** The short escapes: quotation mark, reverse solidus, solidus, b, f, n, r and t. */
  function Escaped(e: byte): Option<byte> {
    match e
    case 34 => Some(34)
    case 92 => Some(92)
    case 47 => Some(47)
    case 98 => Some(8)
    case 102 => Some(12)
    case 110 => Some(10)
    case 114 => Some(13)
    case 116 => Some(9)
    case _ => None
  }

  /** The parser's tables are those of the standard. */
  lemma TablesAgree(b: byte)
    ensures HexValue(b) == Digit(b) && Unescaped(b) == Escaped(b)
  {
  }

  predicate IsHex(d: seq<byte>) {
    |d| == 4 && forall i :: 0 <= i < 4 ==> Digit(d[i]).Some?
  }

  /** The number that hexadecimal digits of either case stand for. */
  function Number(d: seq<byte>): (n: nat)
    requires forall i :: 0 <= i < |d| ==> Digit(d[i]).Some?
  {
    if d == [] then 0 else Number(d[..|d| - 1]) * 16 + Digit(d[|d| - 1]).value
  }

  predicate Generated(ch: Char) {
    match ch
    case Plain(b) => b >= 0x20 && b != 34 && b != 92
    case Short(e) => Escaped(e).Some?
    case Unit(d) => IsHex(d) && Utf16Value([Number(d)]).Some? && Number(d) < 0x1_0000
    case Pair(hi, lo) => IsHex(hi) && IsHex(lo) && Utf16Value([Number(hi), Number(lo)]).Some?
  }

  predicate AllGenerated(chars: seq<Char>) {
    forall i :: 0 <= i < |chars| ==> Generated(chars[i])
  }

  function Written(ch: Char): (t: seq<byte>)
    ensures t != []
  {
    match ch
    case Plain(b) => [b]
    case Short(e) => [92, e]
    case Unit(d) => [92, 117] + d
    case Pair(hi, lo) => [92, 117] + (hi + ([92, 117] + lo))
  }

  function Text(chars: seq<Char>): seq<byte> {
    if chars == [] then [] else Written(chars[0]) + Text(chars[1..])
  }

  /** The bytes a character denotes: for a \u escape the UTF-8 form of its code point. */
  function Denoted(ch: Char): seq<byte>
    requires Generated(ch)
  {
    match ch
    case Plain(b) => [b]
    case Short(e) => [Escaped(e).value]
    case Unit(d) => Utf8(Utf16Value([Number(d)]).value)
    case Pair(hi, lo) => Utf8(Utf16Value([Number(hi), Number(lo)]).value)
  }

  function Meaning(chars: seq<Char>): seq<byte>
    requires AllGenerated(chars)
  {
    if chars == [] then [] else Denoted(chars[0]) + Meaning(chars[1..])
  }

  lemma NumberIs(d: seq<byte>)
    requires IsHex(d)
    ensures Number(d) == 4096 * Digit(d[0]).value + 256 * Digit(d[1]).value + 16 * Digit(d[2]).value + Digit(d[3]).value
  {
    assert d[..3][..2] == d[..2] && d[..2][..1] == d[..1] && d[..1][..0] == [];
    assert Number(d[..1]) == Digit(d[0]).value;
    assert Number(d[..2]) == Number(d[..1]) * 16 + Digit(d[1]).value;
    assert Number(d[..3]) == Number(d[..2]) * 16 + Digit(d[2]).value;
  }

  /** Four digits are read as their number and passed over in the search for the end. */
  lemma DigitsBack(c: seq<byte>, p: nat, d: seq<byte>)
    requires IsHex(d) && Holds(c, p, d)
    ensures p + 4 <= |c| && Hex4(c, p) == Number(d) && FindEnd(c, p) == FindEnd(c, p + 4)
  {
    HoldsAt(c, p, d, 0);
    HoldsAt(c, p, d, 1);
    HoldsAt(c, p, d, 2);
    HoldsAt(c, p, d, 3);
    NumberIs(d);
    forall i | 0 <= i < 4 ensures HexValue(d[i]) == Digit(d[i]) {
      TablesAgree(d[i]);
    }
    hide Number, Digit;
    assert FindEnd(c, p) == FindEnd(c, p + 1) == FindEnd(c, p + 2);
    assert FindEnd(c, p + 2) == FindEnd(c, p + 3) == FindEnd(c, p + 4);
  }

  lemma MarkBack(c: seq<byte>, p: nat)
    requires Holds(c, p, [BACKSLASH, 117])
    ensures p + 2 <= |c| && c[p] == BACKSLASH && c[p + 1] == 117 && FindEnd(c, p) == FindEnd(c, p + 2)
  {
    HoldsAt(c, p, [BACKSLASH, 117], 0);
    HoldsAt(c, p, [BACKSLASH, 117], 1);
  }

  /** One character: the first pass steps over it, the second reads what it denotes. */
  lemma CharBack(c: seq<byte>, p: nat, ch: Char, end: nat)
    requires Generated(ch) && Holds(c, p, Written(ch)) && p + |Written(ch)| <= end < |c|
    ensures FindEnd(c, p) == FindEnd(c, p + |Written(ch)|)
    ensures Piece(c, p, end) == Some(Literal(|Written(ch)|, Denoted(ch)))
  {
    hide Holds, Utf8, FindEnd, Hex4, Number;
    match ch
    case Plain(b) => PlainBack(c, p, b);
    case Short(e) =>
      TablesAgree(e);
      ShortBack(c, p, e);
    case Unit(d) =>
      HoldsSplit(c, p, [BACKSLASH, 117], d);
      MarkBack(c, p);
      DigitsBack(c, p + 2, d);
    case Pair(hi, lo) => PairBack(c, p, hi, lo, end);
  }

  lemma PlainBack(c: seq<byte>, p: nat, b: byte)
    requires Holds(c, p, [b]) && b != QUOTE && b != BACKSLASH
    ensures p < |c| && c[p] == b && FindEnd(c, p) == FindEnd(c, p + 1)
  {
    HoldsAt(c, p, [b], 0);
  }

  lemma ShortBack(c: seq<byte>, p: nat, e: byte)
    requires Holds(c, p, [BACKSLASH, e])
    ensures p + 1 < |c| && c[p] == BACKSLASH && c[p + 1] == e && FindEnd(c, p) == FindEnd(c, p + 2)
  {
    HoldsAt(c, p, [BACKSLASH, e], 0);
    HoldsAt(c, p, [BACKSLASH, e], 1);
  }

  lemma PairBack(c: seq<byte>, p: nat, hi: seq<byte>, lo: seq<byte>, end: nat)
    requires Generated(Pair(hi, lo)) && Holds(c, p, Written(Pair(hi, lo))) && p + 12 <= end < |c|
    ensures FindEnd(c, p) == FindEnd(c, p + 12)
    ensures Piece(c, p, end) == Some(Literal(12, Denoted(Pair(hi, lo))))
  {
    hide Holds, Utf8, FindEnd, Hex4, Number;
    HoldsSplit(c, p, [BACKSLASH, 117], hi + ([BACKSLASH, 117] + lo));
    HoldsSplit(c, p + 2, hi, [BACKSLASH, 117] + lo);
    HoldsSplit(c, p + 6, [BACKSLASH, 117], lo);
    MarkBack(c, p);
    DigitsBack(c, p + 2, hi);
    MarkBack(c, p + 6);
    DigitsBack(c, p + 8, lo);
    SurrogatePairIs(Number(hi), Number(lo));
  }

  lemma {:induction false} TextBack(c: seq<byte>, p: nat, chars: seq<Char>, end: nat)
    requires AllGenerated(chars) && Holds(c, p, Text(chars)) && p + |Text(chars)| == end < |c| && c[end] == QUOTE
    ensures FindEnd(c, p) == Some(end) && Unescape(c, p, end) == Some(Meaning(chars))
    decreases |chars|
  {
    hide Generated, AllGenerated, Holds, FindEnd, Unescape, Text, Meaning, Written, Denoted;
    FirstChar(chars, c, end);
    if chars != [] {
      var ch, rest := chars[0], chars[1..];
      HoldsSplit(c, p, Written(ch), Text(rest));
      TextBack(c, p + |Written(ch)|, rest, end);
      CharStep(c, p, ch, Meaning(rest), end);
    }
  }

  /** A string is its first character and the others, or nothing. */
  lemma FirstChar(chars: seq<Char>, c: seq<byte>, end: nat)
    requires AllGenerated(chars) && end < |c| && c[end] == 34
    ensures if chars == [] then Text(chars) == [] && Meaning(chars) == [] && FindEnd(c, end) == Some(end) && Unescape(c, end, end) == Some([])
            else && Generated(chars[0]) && AllGenerated(chars[1..]) && Text(chars) == Written(chars[0]) + Text(chars[1..])
                 && Meaning(chars) == Denoted(chars[0]) + Meaning(chars[1..])
  {
    hide Generated, Written, Denoted;
  }

  lemma CharStep(c: seq<byte>, p: nat, ch: Char, rest: seq<byte>, end: nat)
    requires Generated(ch) && Holds(c, p, Written(ch)) && p + |Written(ch)| <= end < |c|
    requires FindEnd(c, p + |Written(ch)|) == Some(end) && Unescape(c, p + |Written(ch)|, end) == Some(rest)
    ensures FindEnd(c, p) == Some(end) && Unescape(c, p, end) == Some(Denoted(ch) + rest)
  {
    hide *;
    CharBack(c, p, ch, end);
    UnescapeStep(c, p, end, |Written(ch)|, Denoted(ch), rest);
  }

  /** Every string of the grammar is accepted, wherever it stands and whatever follows, and yields the bytes it
      denotes. */
  lemma EveryStringIsRead(c: seq<byte>, at: nat, chars: seq<Char>)
    requires AllGenerated(chars) && Holds(c, at, [34] + (Text(chars) + [34]))
    ensures at < |c| && ParseString(c, at) == Some(Parsed(Meaning(chars), at + |Text(chars)| + 2))
  {
    hide Holds, FindEnd, Unescape, Text, Meaning, AllGenerated;
    HoldsSplit(c, at, [QUOTE], Text(chars) + [QUOTE]);
    HoldsSplit(c, at + 1, Text(chars), [QUOTE]);
    HoldsAt(c, at, [QUOTE], 0);
    HoldsAt(c, at + 1 + |Text(chars)|, [QUOTE], 0);
    TextBack(c, at + 1, chars, at + 1 + |Text(chars)|);
  }
}
