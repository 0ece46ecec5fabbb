/**
  The two base64 coders: the resumable one of framework/cencode.c and framework/cdecode.c, which works
  byte by byte through a small state machine and breaks lines, and the block coder of
  server/lib/lua_base64.c. Both follow section 4 of RFC 4648.
 */
module Base64 {
  import opened Sequences

  type octet = bv8

  const NEWLINE: octet := 10
  const PAD: octet := 61
  const GROUPS_PER_LINE: nat := 18  // CHARS_PER_LINE / 4

  // ---------- the alphabet ----------

  /** base64_encode_value and basis_64. */
  function Letter(v: octet): octet {
    if v < 26 then v + 65 else if v < 52 then v + 71 else if v < 62 then v - 4
    else if v == 62 then 43 else if v == 63 then 47 else PAD
  }

  /** base64_decode_value: -1 and -2, here 255 and 254, for anything outside the alphabet. */
  function Value(c: octet): octet {
    if c == 43 then 62 else if c == 47 then 63
    else if 48 <= c <= 57 then c + 4
    else if c == PAD then 254
    else if 65 <= c <= 90 then c - 65
    else if 97 <= c <= 122 then c - 71
    else 255
  }

  predicate InAlphabet(c: octet) {
    Value(c) < 128
  }

  lemma ValueOfLetter(v: octet)
    requires v < 64
    ensures Value(Letter(v)) == v && InAlphabet(Letter(v)) && Letter(v) != NEWLINE
  {
  }

  /** The letters A to Z, a to z, the digits, plus and slash, in this order: table 1 of RFC 4648. */
  lemma AlphabetIs()
    ensures [Letter(0), Letter(1), Letter(2), Letter(3), Letter(4), Letter(5), Letter(6), Letter(7),
             Letter(8), Letter(9), Letter(10), Letter(11), Letter(12), Letter(13), Letter(14), Letter(15),
             Letter(16), Letter(17), Letter(18), Letter(19), Letter(20), Letter(21), Letter(22), Letter(23),
             Letter(24), Letter(25), Letter(26), Letter(27), Letter(28), Letter(29), Letter(30), Letter(31),
             Letter(32), Letter(33), Letter(34), Letter(35), Letter(36), Letter(37), Letter(38), Letter(39),
             Letter(40), Letter(41), Letter(42), Letter(43), Letter(44), Letter(45), Letter(46), Letter(47),
             Letter(48), Letter(49), Letter(50), Letter(51), Letter(52), Letter(53), Letter(54), Letter(55),
             Letter(56), Letter(57), Letter(58), Letter(59), Letter(60), Letter(61), Letter(62), Letter(63)]
         == [65, 66, 67, 68, 69, 70, 71, 72, 73, 74, 75, 76, 77, 78, 79, 80,
             81, 82, 83, 84, 85, 86, 87, 88, 89, 90, 97, 98, 99, 100, 101, 102,
             103, 104, 105, 106, 107, 108, 109, 110, 111, 112, 113, 114, 115, 116, 117, 118,
             119, 120, 121, 122, 48, 49, 50, 51, 52, 53, 54, 55, 56, 57, 43, 47]
  {
  }

  /** Nothing else is a letter, and the padding is an equals sign. */
  lemma OnlyLetters(c: octet)
    ensures InAlphabet(c) <==> Value(c) < 64 && Letter(Value(c)) == c
    ensures 64 <= c ==> Letter(c) == 61
  {
  }

  // ---------- RFC 4648 groups ----------

  function V0(a: octet): octet { a >> 2 }
  function V1(a: octet, b: octet): octet { ((a & 3) << 4) | (b >> 4) }
  function V2(b: octet, c: octet): octet { ((b & 15) << 2) | (c >> 6) }
  function V3(c: octet): octet { c & 63 }

  lemma GroupBits(a: octet, b: octet, c: octet)
    ensures V0(a) < 64 && V1(a, b) < 64 && V2(b, c) < 64 && V3(c) < 64
    ensures (V0(a) << 2) | (V1(a, b) >> 4) == a
    ensures (V1(a, b) << 4) | (V2(b, c) >> 2) == b
    ensures (V2(b, c) << 6) | V3(c) == c
  {
  }

  /** Three bytes and their four groups of six bits are the same 24 bits. */
  lemma GroupIsNumber(a: octet, b: octet, c: octet)
    ensures ((a as bv24) << 16) | ((b as bv24) << 8) | (c as bv24)
         == ((V0(a) as bv24) << 18) | ((V1(a, b) as bv24) << 12) | ((V2(b, c) as bv24) << 6) | (V3(c) as bv24)
  {
  }

  function Quad(a: octet, b: octet, c: octet): (q: seq<octet>)
    ensures |q| == 4
  {
    [Letter(V0(a)), Letter(V1(a, b)), Letter(V2(b, c)), Letter(V3(c))]
  }

  /** The last group: nothing, or one or two bytes and padding. */
  function Tail(s: seq<octet>): seq<octet>
    requires |s| < 3
  {
    if |s| == 0 then []
    else if |s| == 1 then [Letter(V0(s[0])), Letter(V1(s[0], 0)), PAD, PAD]
    else [Letter(V0(s[0])), Letter(V1(s[0], s[1])), Letter(V2(s[1], 0)), PAD]
  }

  /** The base64 text of a byte string. */
  function Text(s: seq<octet>): seq<octet> {
    if |s| < 3 then Tail(s) else Quad(s[0], s[1], s[2]) + Text(s[3..])
  }

  /** The line break behind a group, if groups came before it on its line. */
  function Break(groups: nat): seq<octet> {
    if groups + 1 == GROUPS_PER_LINE then [NEWLINE] else []
  }

  function NextCount(groups: nat): nat {
    if groups + 1 == GROUPS_PER_LINE then 0 else groups + 1
  }

  /** The same text with a line break after every 18 groups and at the end. */
  function Lines(s: seq<octet>, groups: nat): seq<octet> {
    if |s| < 3 then Tail(s) + [NEWLINE]
    else Quad(s[0], s[1], s[2]) + Break(groups) + Lines(s[3..], NextCount(groups))
  }

  function Strip(s: seq<octet>): seq<octet> {
    if s == [] then [] else (if s[0] == NEWLINE then [] else [s[0]]) + Strip(s[1..])
  }

  // ---------- the resumable encoder ----------

  datatype EncStep = StepA | StepB | StepC

  datatype EncState = EncState(step: EncStep, result: octet, stepcount: nat)

  const ENC_START := EncState(StepA, 0, 0)

  // The bits of the fragment that the encoder cuts out, and those it keeps for the next letter.
  function High6(b: octet): octet { (b & 0xfc) >> 2 }
  function Low2(b: octet): octet { (b & 0x03) << 4 }
  function With4(result: octet, b: octet): octet { result | ((b & 0xf0) >> 4) }
  function Low4(b: octet): octet { (b & 0x0f) << 2 }
  function With2(result: octet, b: octet): octet { result | ((b & 0xc0) >> 6) }
  function Low6(b: octet): octet { b & 0x3f }

  /** What one byte does to the state, and what it puts out. */
  function EncNext(st: EncState, b: octet): EncState {
    match st.step
    case StepA => EncState(StepB, Low2(b), st.stepcount)
    case StepB => EncState(StepC, Low4(b), st.stepcount)
    case StepC => EncState(StepA, Low6(b), NextCount(st.stepcount))
  }

  function EncEmit(st: EncState, b: octet): seq<octet> {
    match st.step
    case StepA => [Letter(High6(b))]
    case StepB => [Letter(With4(st.result, b))]
    case StepC => [Letter(With2(st.result, b)), Letter(Low6(b))] + Break(st.stepcount)
  }

  function EncAfter(st: EncState, s: seq<octet>): EncState
    decreases |s|
  {
    if s == [] then st else EncAfter(EncNext(st, s[0]), s[1..])
  }

  function EncOut(st: EncState, s: seq<octet>): seq<octet>
    decreases |s|
  {
    if s == [] then [] else EncEmit(st, s[0]) + EncOut(EncNext(st, s[0]), s[1..])
  }

  /** base64_encode_blockend. */
  function EncEnd(st: EncState): seq<octet> {
    (match st.step
     case StepA => []
     case StepB => [Letter(st.result), PAD, PAD]
     case StepC => [Letter(st.result), PAD]) + [NEWLINE]
  }

  lemma {:induction false} EncSplit(st: EncState, s: seq<octet>, t: seq<octet>)
    ensures EncAfter(st, s + t) == EncAfter(EncAfter(st, s), t)
    ensures EncOut(st, s + t) == EncOut(st, s) + EncOut(EncAfter(st, s), t)
    decreases |s|
  {
    if s == [] {
      assert s + t == t;
    } else {
      assert (s + t)[0] == s[0] && (s + t)[1..] == s[1..] + t;
      EncSplit(EncNext(st, s[0]), s[1..], t);
      Assoc(EncEmit(st, s[0]), EncOut(EncNext(st, s[0]), s[1..]), EncOut(EncAfter(st, s), t));
    }
  }

  /** The encoder's bits are those of the groups; the last group is filled up with zeros. */
  lemma EncBits(a: octet, b: octet, c: octet)
    ensures High6(a) == V0(a) && With4(Low2(a), b) == V1(a, b) && With2(Low4(b), c) == V2(b, c) && Low6(c) == V3(c)
    ensures Low2(a) == V1(a, 0) && Low4(b) == V2(b, 0)
  {
  }

  /** One byte, then the rest. */
  lemma EncCons(st: EncState, b: octet, rest: seq<octet>)
    ensures EncOut(st, [b] + rest) == EncEmit(st, b) + EncOut(EncNext(st, b), rest)
    ensures EncAfter(st, [b] + rest) == EncAfter(EncNext(st, b), rest)
  {
    assert ([b] + rest)[1..] == rest;
  }

  /** Three bytes make one group. */
  lemma EncGroup(st: EncState, a: octet, b: octet, c: octet, rest: seq<octet>)
    requires st.step == StepA
    ensures EncAfter(st, [a] + ([b] + ([c] + rest))) == EncAfter(NextGroup(st, c), rest)
    ensures EncOut(st, [a] + ([b] + ([c] + rest))) == Quad(a, b, c) + Break(st.stepcount) + EncOut(NextGroup(st, c), rest)
  {
    EncBits(a, b, c);
    var st1, st2 := EncState(StepB, Low2(a), st.stepcount), EncState(StepC, Low4(b), st.stepcount);
    assert EncNext(st, a) == st1 && EncNext(st1, b) == st2 && EncNext(st2, c) == NextGroup(st, c);
    assert EncEmit(st, a) == [Letter(V0(a))] && EncEmit(st1, b) == [Letter(V1(a, b))];
    assert EncEmit(st2, c) == [Letter(V2(b, c)), Letter(V3(c))] + Break(st.stepcount);
    assert Quad(a, b, c) == [Letter(V0(a)), Letter(V1(a, b)), Letter(V2(b, c)), Letter(V3(c))];
    hide *;
    EncCons(st, a, [b] + ([c] + rest));
    EncCons(st1, b, [c] + rest);
    EncCons(st2, c, rest);
    QuadParts(Letter(V0(a)), Letter(V1(a, b)), Letter(V2(b, c)), Letter(V3(c)), Break(st.stepcount), EncOut(NextGroup(st, c), rest));
  }

  function NextGroup(st: EncState, c: octet): EncState {
    EncState(StepA, Low6(c), NextCount(st.stepcount))
  }

  lemma QuadParts(p: octet, q: octet, r: octet, s: octet, brk: seq<octet>, rest: seq<octet>)
    ensures [p] + ([q] + (([r, s] + brk) + rest)) == [p, q, r, s] + brk + rest
  {
  }

  lemma EncTail(st: EncState, s: seq<octet>)
    requires st.step == StepA && |s| < 3
    ensures EncOut(st, s) + EncEnd(EncAfter(st, s)) == Tail(s) + [NEWLINE]
  {
    hide High6, Low2, With4, Low4, With2, Low6, V0, V1, V2, V3, Letter;
    if |s| == 1 {
      EncTail1(st, s[0]);
      assert s == [s[0]] + [];
    } else if |s| == 2 {
      EncTail2(st, s[0], s[1]);
      assert s == [s[0]] + ([s[1]] + []);
    }
  }

  lemma EncTail1(st: EncState, a: octet)
    requires st.step == StepA
    ensures EncOut(st, [a] + []) + EncEnd(EncAfter(st, [a] + [])) == [Letter(V0(a)), Letter(V1(a, 0)), PAD, PAD] + [NEWLINE]
  {
    EncBits(a, 0, 0);
    var st1 := EncState(StepB, Low2(a), st.stepcount);
    assert EncNext(st, a) == st1 && EncEmit(st, a) == [Letter(V0(a))];
    assert EncEnd(st1) == [Letter(V1(a, 0)), PAD, PAD] + [NEWLINE] && EncOut(st1, []) == [] && EncAfter(st1, []) == st1;
    hide *;
    EncCons(st, a, []);
  }

  lemma EncTail2(st: EncState, a: octet, b: octet)
    requires st.step == StepA
    ensures var s := [a] + ([b] + []);
      EncOut(st, s) + EncEnd(EncAfter(st, s)) == [Letter(V0(a)), Letter(V1(a, b)), Letter(V2(b, 0)), PAD] + [NEWLINE]
  {
    EncBits(a, b, 0);
    var st1, st2 := EncState(StepB, Low2(a), st.stepcount), EncState(StepC, Low4(b), st.stepcount);
    assert EncNext(st, a) == st1 && EncEmit(st, a) == [Letter(V0(a))];
    assert EncNext(st1, b) == st2 && EncEmit(st1, b) == [Letter(V1(a, b))];
    assert EncEnd(st2) == [Letter(V2(b, 0)), PAD] + [NEWLINE] && EncOut(st2, []) == [] && EncAfter(st2, []) == st2;
    hide *;
    EncCons(st, a, [b] + []);
    EncCons(st1, b, []);
  }

  /** Encoding and ending gives the text in lines. */
  lemma {:induction false} EncIsLines(st: EncState, s: seq<octet>)
    requires st.step == StepA
    ensures EncOut(st, s) + EncEnd(EncAfter(st, s)) == Lines(s, st.stepcount)
    decreases |s|
  {
    if |s| < 3 {
      EncTail(st, s);
    } else {
      var rest := s[3..];
      assert s == [s[0]] + ([s[1]] + ([s[2]] + rest));
      EncGroup(st, s[0], s[1], s[2], rest);
      var next := NextGroup(st, s[2]);
      EncIsLines(next, rest);
      Assoc(Quad(s[0], s[1], s[2]) + Break(st.stepcount), EncOut(next, rest), EncEnd(EncAfter(st, s)));
    }
  }

  // ---------- chunks ----------

  /** What successive calls of base64_encode_block put out together. */
  ghost function EncChunks(st: EncState, chunks: seq<seq<octet>>): seq<octet>
    decreases |chunks|
  {
    if chunks == [] then [] else EncOut(st, chunks[0]) + EncChunks(EncAfter(st, chunks[0]), chunks[1..])
  }

  lemma {:induction false} EncChunksAreOne(st: EncState, chunks: seq<seq<octet>>)
    ensures EncChunks(st, chunks) == EncOut(st, Concat(chunks))
    decreases |chunks|
  {
    if chunks != [] {
      EncSplit(st, chunks[0], Concat(chunks[1..]));
      EncChunksAreOne(EncAfter(st, chunks[0]), chunks[1..]);
    }
  }

  /** However a byte string is cut into blocks, the calls and the final one give its text in lines. */
  lemma EncodingIsLines(chunks: seq<seq<octet>>)
    ensures EncChunks(ENC_START, chunks) + EncEnd(EncAfter(ENC_START, Concat(chunks))) == Lines(Concat(chunks), 0)
  {
    EncChunksAreOne(ENC_START, chunks);
    EncIsLines(ENC_START, Concat(chunks));
  }

  // ---------- line breaks ----------

  lemma {:induction false} StripAppend(s: seq<octet>, t: seq<octet>)
    ensures Strip(s + t) == Strip(s) + Strip(t)
  {
    if s == [] {
      assert s + t == t;
    } else {
      assert (s + t)[0] == s[0] && (s + t)[1..] == s[1..] + t;
      StripAppend(s[1..], t);
    }
  }

  lemma {:induction false} StripNothing(s: seq<octet>)
    requires forall i :: 0 <= i < |s| ==> s[i] != NEWLINE
    ensures Strip(s) == s
  {
    if s != [] { StripNothing(s[1..]); }
  }

  lemma QuadHasNoBreak(a: octet, b: octet, c: octet)
    ensures forall i :: 0 <= i < 4 ==> Quad(a, b, c)[i] != NEWLINE
  {
    GroupBits(a, b, c);
    ValueOfLetter(V0(a));
    ValueOfLetter(V1(a, b));
    ValueOfLetter(V2(b, c));
    ValueOfLetter(V3(c));
  }

  lemma TailHasNoBreak(s: seq<octet>)
    requires |s| < 3
    ensures forall i :: 0 <= i < |Tail(s)| ==> Tail(s)[i] != NEWLINE
  {
    if |s| > 0 {
      GroupBits(s[0], if |s| > 1 then s[1] else 0, 0);
      ValueOfLetter(V0(s[0]));
      ValueOfLetter(V1(s[0], if |s| > 1 then s[1] else 0));
      if |s| > 1 { ValueOfLetter(V2(s[1], 0)); }
    }
  }

  lemma StripBreak()
    ensures Strip([NEWLINE]) == [] && Strip([]) == []
  {
    assert [NEWLINE][1..] == [];
  }

  /** Without its line breaks, the resumable coder's text is the block coder's. */
  lemma {:induction false} LinesIsText(s: seq<octet>, groups: nat)
    ensures Strip(Lines(s, groups)) == Text(s)
    decreases |s|
  {
    StripBreak();
    if |s| < 3 {
      TailHasNoBreak(s);
      StripNothing(Tail(s));
      StripAppend(Tail(s), [NEWLINE]);
    } else {
      var q, brk, rest := Quad(s[0], s[1], s[2]), Break(groups), Lines(s[3..], NextCount(groups));
      QuadHasNoBreak(s[0], s[1], s[2]);
      StripNothing(q);
      StripAppend(q, brk);
      StripAppend(q + brk, rest);
      LinesIsText(s[3..], NextCount(groups));
    }
  }

  lemma {:induction false} TextHasNoBreak(s: seq<octet>)
    ensures forall i :: 0 <= i < |Text(s)| ==> Text(s)[i] != NEWLINE
    decreases |s|
  {
    if |s| < 3 {
      TailHasNoBreak(s);
    } else {
      QuadHasNoBreak(s[0], s[1], s[2]);
      TextHasNoBreak(s[3..]);
    }
  }

  /** The rest of a line that holds some groups already. */
  lemma {:induction false} RestOfLine(s: seq<octet>, groups: nat)
    requires groups < GROUPS_PER_LINE
    ensures var n := 3 * (GROUPS_PER_LINE - groups);
            Lines(s, groups) == if |s| < n then Text(s) + [NEWLINE] else Text(s[..n]) + [NEWLINE] + Lines(s[n..], 0)
    decreases |s|
  {
    hide Tail, Quad;
    var n := 3 * (GROUPS_PER_LINE - groups);
    if |s| >= 3 {
      var q, rest := Quad(s[0], s[1], s[2]), s[3..];
      if n == 3 {
        FirstGroups(s, 3);
      } else {
        RestOfLine(rest, groups + 1);
        if |s| < n {
          Assoc(q, Text(rest), [NEWLINE]);
        } else {
          FirstGroups(s, n);
          assert s[n..] == rest[n - 3..];
          Regroup(q, Text(rest[..n - 3]), [NEWLINE], Lines(s[n..], 0));
        }
      }
    }
  }

  lemma Regroup(a: seq<octet>, b: seq<octet>, c: seq<octet>, d: seq<octet>)
    ensures (a + []) + ((b + c) + d) == ((a + b) + c) + d
  {
  }

  lemma FirstGroups(s: seq<octet>, n: nat)
    requires 3 <= n <= |s|
    ensures Text(s[..n]) == Quad(s[0], s[1], s[2]) + Text(s[3..][..n - 3])
    ensures n == 3 ==> Text(s[..n]) == Quad(s[0], s[1], s[2])
  {
    hide Quad;
    assert s[..n][3..] == s[3..][..n - 3];
    if n == 3 { assert s[3..][..0] == [] && Text([]) == []; }
  }

  /** A line holds 72 characters: 54 bytes and a line feed, or what is left. */
  lemma LineLength(s: seq<octet>)
    ensures |s| < 54 ==> Lines(s, 0) == Text(s) + [10] && |Text(s)| <= 72
    ensures |s| >= 54 ==> Lines(s, 0) == Text(s[..54]) + [10] + Lines(s[54..], 0) && |Text(s[..54])| == 72
    ensures 10 !in Text(s) && (|s| >= 54 ==> 10 !in Text(s[..54]))
  {
    RestOfLine(s, 0);
    TextLength(s);
    TextHasNoBreak(s);
    if |s| >= 54 {
      TextLength(s[..54]);
      TextHasNoBreak(s[..54]);
    }
  }

  // ---------- the resumable decoder ----------

  datatype DecStep = Stepa | Stepb | Stepc | Stepd

  /** In step a plainchar is not read before it is overwritten; it is kept at 0 there. */
  datatype DecState = DecState(step: DecStep, plainchar: octet)

  const DEC_START := DecState(Stepa, 0)

  // The bits of a letter's value that start the next byte, and those that complete the present one.
  function Keep6(f: octet): octet { (f & 0x3f) << 2 }
  function Add2(p: octet, f: octet): octet { p | ((f & 0x30) >> 4) }
  function Keep4(f: octet): octet { (f & 0x0f) << 4 }
  function Add4(p: octet, f: octet): octet { p | ((f & 0x3c) >> 2) }
  function Keep2(f: octet): octet { (f & 0x03) << 6 }
  function Add6(p: octet, f: octet): octet { p | (f & 0x3f) }

  /** What one character does; one outside the alphabet does nothing. */
  function DecNext(st: DecState, c: octet): DecState {
    if !InAlphabet(c) then st
    else
      var f := Value(c);
      match st.step
      case Stepa => DecState(Stepb, Keep6(f))
      case Stepb => DecState(Stepc, Keep4(f))
      case Stepc => DecState(Stepd, Keep2(f))
      case Stepd => DEC_START
  }

  function DecEmit(st: DecState, c: octet): seq<octet> {
    if !InAlphabet(c) then []
    else
      var f := Value(c);
      match st.step
      case Stepa => []
      case Stepb => [Add2(st.plainchar, f)]
      case Stepc => [Add4(st.plainchar, f)]
      case Stepd => [Add6(st.plainchar, f)]
  }

  function DecAfter(st: DecState, s: seq<octet>): DecState
    decreases |s|
  {
    if s == [] then st else DecAfter(DecNext(st, s[0]), s[1..])
  }

  function DecOut(st: DecState, s: seq<octet>): seq<octet>
    decreases |s|
  {
    if s == [] then [] else DecEmit(st, s[0]) + DecOut(DecNext(st, s[0]), s[1..])
  }

  lemma {:induction false} DecSplit(st: DecState, s: seq<octet>, t: seq<octet>)
    ensures DecAfter(st, s + t) == DecAfter(DecAfter(st, s), t)
    ensures DecOut(st, s + t) == DecOut(st, s) + DecOut(DecAfter(st, s), t)
    decreases |s|
  {
    hide DecNext, DecEmit;
    if s == [] {
      assert s + t == t;
    } else {
      assert (s + t)[0] == s[0] && (s + t)[1..] == s[1..] + t;
      DecSplit(DecNext(st, s[0]), s[1..], t);
      Assoc(DecEmit(st, s[0]), DecOut(DecNext(st, s[0]), s[1..]), DecOut(DecAfter(st, s), t));
    }
  }

  lemma DecCons(st: DecState, c: octet, rest: seq<octet>)
    ensures DecOut(st, [c] + rest) == DecEmit(st, c) + DecOut(DecNext(st, c), rest)
  {
    assert ([c] + rest)[1..] == rest;
  }

  /** A line break or padding changes nothing. */
  lemma DecSkip(st: DecState, c: octet, rest: seq<octet>)
    requires !InAlphabet(c)
    ensures DecOut(st, [c] + rest) == DecOut(st, rest)
  {
    DecCons(st, c, rest);
  }

  /** A letter for v. */
  lemma DecLetter(st: DecState, v: octet, rest: seq<octet>)
    requires v < 64
    ensures DecOut(st, [Letter(v)] + rest) == match st.step
      case Stepa => DecOut(DecState(Stepb, Keep6(v)), rest)
      case Stepb => [Add2(st.plainchar, v)] + DecOut(DecState(Stepc, Keep4(v)), rest)
      case Stepc => [Add4(st.plainchar, v)] + DecOut(DecState(Stepd, Keep2(v)), rest)
      case Stepd => [Add6(st.plainchar, v)] + DecOut(DEC_START, rest)
  {
    hide Letter, Value, DecOut, InAlphabet, Keep6, Keep4, Keep2, Add2, Add4, Add6;
    ValueOfLetter(v);
    DecCons(st, Letter(v), rest);
  }

  /** What the encoder cut up, the decoder puts together. */
  lemma GroupBack(a: octet, b: octet, c: octet)
    ensures V0(a) < 64 && V1(a, b) < 64 && V2(b, c) < 64 && V3(c) < 64
    ensures Add2(Keep6(V0(a)), V1(a, b)) == a && Add4(Keep4(V1(a, b)), V2(b, c)) == b && Add6(Keep2(V2(b, c)), V3(c)) == c
  {
  }

  /** A group gives its three bytes back. */
  lemma DecGroup(a: octet, b: octet, c: octet, rest: seq<octet>)
    ensures DecOut(DEC_START, Quad(a, b, c) + rest) == [a, b, c] + DecOut(DEC_START, rest)
  {
    GroupBack(a, b, c);
    var l0, l1, l2, l3 := Letter(V0(a)), Letter(V1(a, b)), Letter(V2(b, c)), Letter(V3(c));
    assert Quad(a, b, c) == [l0, l1, l2, l3];
    hide *;
    Spread(l0, l1, l2, l3, rest);
    DecLetter(DEC_START, V0(a), [l1] + ([l2] + ([l3] + rest)));
    DecLetter(DecState(Stepb, Keep6(V0(a))), V1(a, b), [l2] + ([l3] + rest));
    DecLetter(DecState(Stepc, Keep4(V1(a, b))), V2(b, c), [l3] + rest);
    DecLetter(DecState(Stepd, Keep2(V2(b, c))), V3(c), rest);
    Spread3(a, b, c, DecOut(DEC_START, rest));
  }

  lemma Spread3(a: octet, b: octet, c: octet, rest: seq<octet>)
    ensures [a, b, c] + rest == [a] + ([b] + ([c] + rest))
  {
  }

  lemma Spread(p: octet, q: octet, r: octet, s: octet, rest: seq<octet>)
    ensures [p, q, r, s] + rest == [p] + ([q] + ([r] + ([s] + rest)))
  {
  }

  /** The last group gives its bytes back, whatever follows outside the alphabet. */
  lemma DecTail(s: seq<octet>, end: seq<octet>)
    requires |s| < 3 && (end == [] || end == [NEWLINE])
    ensures DecOut(DEC_START, Tail(s) + end) == s
  {
    if |s| == 0 {
      EndIsSilent(DEC_START, end);
      assert Tail(s) + end == end;
    } else if |s| == 1 {
      DecTail1(s[0], end);
      assert s == [s[0]];
    } else {
      DecTail2(s[0], s[1], end);
      assert s == [s[0], s[1]];
    }
  }

  lemma PadIsNoLetter()
    ensures !InAlphabet(PAD)
  {
  }

  lemma DecTail1(a: octet, end: seq<octet>)
    requires end == [] || end == [NEWLINE]
    ensures DecOut(DEC_START, [Letter(V0(a)), Letter(V1(a, 0)), PAD, PAD] + end) == [a]
  {
    hide Letter, Value, InAlphabet, DecOut, Keep6, Keep4, Keep2, Add2, Add4, Add6, V0, V1, V2, V3;
    GroupBack(a, 0, 0);
    PadIsNoLetter();
    var l0, l1, st := Letter(V0(a)), Letter(V1(a, 0)), DecState(Stepc, Keep4(V1(a, 0)));
    Spread(l0, l1, PAD, PAD, end);
    DecLetter(DEC_START, V0(a), [l1] + ([PAD] + ([PAD] + end)));
    DecLetter(DecState(Stepb, Keep6(V0(a))), V1(a, 0), [PAD] + ([PAD] + end));
    DecSkip(st, PAD, [PAD] + end);
    DecSkip(st, PAD, end);
    EndIsSilent(st, end);
  }

  lemma DecTail2(a: octet, b: octet, end: seq<octet>)
    requires end == [] || end == [NEWLINE]
    ensures DecOut(DEC_START, [Letter(V0(a)), Letter(V1(a, b)), Letter(V2(b, 0)), PAD] + end) == [a, b]
  {
    hide Letter, Value, InAlphabet, DecOut, Keep6, Keep4, Keep2, Add2, Add4, Add6, V0, V1, V2, V3;
    GroupBack(a, b, 0);
    PadIsNoLetter();
    var l0, l1, l2, st := Letter(V0(a)), Letter(V1(a, b)), Letter(V2(b, 0)), DecState(Stepd, Keep2(V2(b, 0)));
    Spread(l0, l1, l2, PAD, end);
    DecLetter(DEC_START, V0(a), [l1] + ([l2] + ([PAD] + end)));
    DecLetter(DecState(Stepb, Keep6(V0(a))), V1(a, b), [l2] + ([PAD] + end));
    DecLetter(DecState(Stepc, Keep4(V1(a, b))), V2(b, 0), [PAD] + end);
    DecSkip(st, PAD, end);
    EndIsSilent(st, end);
  }

  lemma EndIsSilent(st: DecState, end: seq<octet>)
    requires end == [] || end == [NEWLINE]
    ensures DecOut(st, end) == []
  {
    if end != [] {
      DecSkip(st, NEWLINE, []);
      assert [NEWLINE] + [] == end;
    }
  }

  /** The resumable decoder undoes the resumable encoder's text. */
  lemma {:induction false} DecLines(s: seq<octet>, groups: nat)
    ensures DecOut(DEC_START, Lines(s, groups)) == s
    decreases |s|
  {
    hide DecOut;
    if |s| < 3 {
      DecTail(s, [NEWLINE]);
    } else {
      var rest, brk := Lines(s[3..], NextCount(groups)), Break(groups);
      DecLines(s[3..], NextCount(groups));
      Assoc(Quad(s[0], s[1], s[2]), brk, rest);
      DecGroup(s[0], s[1], s[2], brk + rest);
      if brk != [] { DecSkip(DEC_START, NEWLINE, rest); } else { assert brk + rest == rest; }
      assert s == [s[0], s[1], s[2]] + s[3..];
    }
  }

  /** It undoes the block coder's text as well. */
  lemma {:induction false} DecText(s: seq<octet>)
    ensures DecOut(DEC_START, Text(s)) == s
    decreases |s|
  {
    hide DecOut;
    if |s| < 3 {
      DecTail(s, []);
      assert Tail(s) + [] == Tail(s);
    } else {
      DecText(s[3..]);
      DecGroup(s[0], s[1], s[2], Text(s[3..]));
      assert s == [s[0], s[1], s[2]] + s[3..];
    }
  }

  ghost function DecChunks(st: DecState, chunks: seq<seq<octet>>): seq<octet>
    decreases |chunks|
  {
    if chunks == [] then [] else DecOut(st, chunks[0]) + DecChunks(DecAfter(st, chunks[0]), chunks[1..])
  }

  lemma {:induction false} DecChunksAreOne(st: DecState, chunks: seq<seq<octet>>)
    ensures DecChunks(st, chunks) == DecOut(st, Concat(chunks))
    decreases |chunks|
  {
    hide DecNext, DecEmit;
    if chunks != [] {
      DecSplit(st, chunks[0], Concat(chunks[1..]));
      DecChunksAreOne(DecAfter(st, chunks[0]), chunks[1..]);
    }
  }

  /** Whatever way the plain bytes were cut for encoding and the text for decoding, the bytes come back. */
  lemma StreamRoundTrip(plain: seq<seq<octet>>, code: seq<seq<octet>>)
    requires Concat(code) == EncChunks(ENC_START, plain) + EncEnd(EncAfter(ENC_START, Concat(plain)))
    ensures DecChunks(DEC_START, code) == Concat(plain)
  {
    EncodingIsLines(plain);
    DecChunksAreOne(DEC_START, code);
    DecLines(Concat(plain), 0);
  }

  // ---------- the two state machines at work ----------

  class Encoder {
    var step: EncStep
    var result: octet
    var stepcount: nat

    function State(): EncState
      reads this
    {
      EncState(step, result, stepcount)
    }

    /** base64_init_encodestate. */
    constructor ()
      ensures State() == ENC_START
    {
      step, result, stepcount := StepA, 0, 0;
    }

    /** base64_encode_block. */
    method Block(plain: seq<octet>) returns (code: seq<octet>)
      modifies this
      ensures State() == EncAfter(old(State()), plain) && code == EncOut(old(State()), plain)
    {
      code := [];
      for i := 0 to |plain|
        invariant EncAfter(State(), plain[i..]) == EncAfter(old(State()), plain)
        invariant code + EncOut(State(), plain[i..]) == EncOut(old(State()), plain)
      {
        ghost var was, before := State(), code;
        ghost var rest := plain[i + 1..];
        assert plain[i..] == [plain[i]] + rest;
        code := Byte(plain[i], code);
        hide *;
        EncCons(was, plain[i], rest);
        Assoc(before, EncEmit(was, plain[i]), EncOut(EncNext(was, plain[i]), rest));
      }
      assert plain[|plain|..] == [];
    }

    /** One turn through the switch: the letters of one byte. */
    method Byte(fragment: octet, code: seq<octet>) returns (code': seq<octet>)
      modifies this
      ensures State() == EncNext(old(State()), fragment) && code' == code + EncEmit(old(State()), fragment)
    {
      hide Letter, High6, Low2, With4, Low4, With2, Low6;
      match step
      case StepA =>
        code' := code + [Letter(High6(fragment))];
        result, step := Low2(fragment), StepB;
      case StepB =>
        code' := code + [Letter(With4(result, fragment))];
        result, step := Low4(fragment), StepC;
      case StepC =>
        code' := code + [Letter(With2(result, fragment)), Letter(Low6(fragment))];
        result, step := Low6(fragment), StepA;
        stepcount := stepcount + 1;
        if stepcount == GROUPS_PER_LINE {
          code' := code' + [NEWLINE];
          stepcount := 0;
        }
    }

    /** base64_encode_blockend. */
    method BlockEnd() returns (code: seq<octet>)
      ensures code == EncEnd(State())
    {
      code := [];
      match step {
        case StepA =>
        case StepB => code := [Letter(result), PAD, PAD];
        case StepC => code := [Letter(result), PAD];
      }
      code := code + [NEWLINE];
    }
  }

  class Decoder {
    var step: DecStep
    var plainchar: octet

    function State(): DecState
      reads this
    {
      DecState(step, plainchar)
    }

    /** base64_init_decodestate. */
    constructor ()
      ensures State() == DEC_START
    {
      step, plainchar := Stepa, 0;
    }

    /** base64_decode_block. */
    method Block(code: seq<octet>) returns (plain: seq<octet>)
      modifies this
      ensures State() == DecAfter(old(State()), code) && plain == DecOut(old(State()), code)
    {
      plain := [];
      for i := 0 to |code|
        invariant DecAfter(State(), code[i..]) == DecAfter(old(State()), code)
        invariant plain + DecOut(State(), code[i..]) == DecOut(old(State()), code)
      {
        ghost var was, before := State(), plain;
        ghost var rest := code[i + 1..];
        assert code[i..] == [code[i]] + rest;
        plain := Char(code[i], plain);
        hide *;
        DecCons(was, code[i], rest);
        Assoc(before, DecEmit(was, code[i]), DecOut(DecNext(was, code[i]), rest));
      }
      assert code[|code|..] == [];
    }

    /** One turn through the switch: a character outside the alphabet is passed over. */
    method Char(c: octet, plain: seq<octet>) returns (plain': seq<octet>)
      modifies this
      ensures State() == DecNext(old(State()), c) && plain' == plain + DecEmit(old(State()), c)
    {
      hide Value, Keep6, Keep4, Keep2, Add2, Add4, Add6;
      plain' := plain;
      var fragment := Value(c);
      if fragment < 128 {
        match step {
          case Stepa =>
            plainchar, step := Keep6(fragment), Stepb;
          case Stepb =>
            plain' := plain + [Add2(plainchar, fragment)];
            plainchar, step := Keep4(fragment), Stepc;
          case Stepc =>
            plain' := plain + [Add4(plainchar, fragment)];
            plainchar, step := Keep2(fragment), Stepd;
          case Stepd =>
            plain' := plain + [Add6(plainchar, fragment)];
            plainchar, step := 0, Stepa;
        }
      }
    }
  }

  // ---------- the block coder ----------

  lemma {:induction false} TextLength(s: seq<octet>)
    ensures |Text(s)| == (|s| + 2) / 3 * 4
    decreases |s|
  {
    if |s| >= 3 { TextLength(s[3..]); }
  }

  /** The letters of one group as Base64encode computes them. */
  function EncodeGroup(a: octet, b: octet, c: octet): (q: seq<octet>)
    ensures q == Quad(a, b, c)
  {
    EncBits(a, b, c);
    ShiftFits(a);
    [Letter((a >> 2) & 0x3f), Letter(With4(Low2(a), b)), Letter(With2(Low4(b), c)), Letter(Low6(c))]
  }

  lemma ShiftFits(a: octet)
    ensures (a >> 2) & 0x3f == V0(a)
  {
  }

  /** Base64encode: the text and a terminating zero, Base64encode_len bytes in all. */
  method Base64Encode(s: seq<octet>) returns (encoded: seq<octet>)
    ensures encoded == Text(s) + [0] && |encoded| == (|s| + 2) / 3 * 4 + 1
  {
    var p: seq<octet> := [];
    var i := 0;
    TextLength(s);
    hide Letter, V0, V1, V2, V3, EncodeGroup, Quad, Tail;
    while i < |s| - 2
      invariant 0 <= i <= |s| && p + Text(s[i..]) == Text(s)
    {
      ghost var before, rest := p, s[i + 3..];
      var q := EncodeGroup(s[i], s[i + 1], s[i + 2]);
      assert Text(s[i..]) == q + Text(rest) by { assert s[i..][3..] == rest; }
      p := p + q;
      Assoc(before, q, Text(rest));
      i := i + 3;
    }
    var last := EncodeLast(s[i..]);
    encoded := p + last + [0];
  }

  /** What Base64encode does with the one or two bytes left over. */
  method EncodeLast(r: seq<octet>) returns (p: seq<octet>)
    requires |r| < 3
    ensures p == Tail(r)
  {
    p := [];
    if |r| > 0 {
      EncBits(r[0], if |r| > 1 then r[1] else 0, 0);
      ShiftFits(r[0]);
      hide Letter, V0, V1, V2, High6, With4, Low2, Low4;
      p := p + [Letter((r[0] >> 2) & 0x3f)];
      if |r| == 1 {
        p := p + [Letter(Low2(r[0]))];
        p := p + [PAD];
      } else {
        p := p + [Letter(With4(Low2(r[0]), r[1]))];
        p := p + [Letter(Low4(r[1]))];
      }
      p := p + [PAD];
    }
  }

  // The bytes that Base64decode puts together from two neighbouring values.
  function D0(x: octet, y: octet): octet { (x << 2) | (y >> 4) }
  function D1(x: octet, y: octet): octet { (x << 4) | (y >> 2) }
  function D2(x: octet, y: octet): octet { (x << 6) | y }

  /** What Base64decode makes of a run of letters: whole groups while more than four are left, then the rest. */
  function Plain(l: seq<octet>): seq<octet> {
    if |l| > 4 then
      [D0(Value(l[0]), Value(l[1])), D1(Value(l[1]), Value(l[2])), D2(Value(l[2]), Value(l[3]))] + Plain(l[4..])
    else LastPlain(l)
  }

  function LastPlain(l: seq<octet>): seq<octet>
    requires |l| <= 4
  {
    (if |l| > 1 then [D0(Value(l[0]), Value(l[1]))] else [])
    + (if |l| > 2 then [D1(Value(l[1]), Value(l[2]))] else [])
    + (if |l| > 3 then [D2(Value(l[2]), Value(l[3]))] else [])
  }

  /** The letters in front of the first other character. */
  function Leading(code: seq<octet>): (l: seq<octet>)
    ensures l <= code && forall i :: 0 <= i < |l| ==> InAlphabet(l[i])
    ensures |l| < |code| ==> !InAlphabet(code[|l|])
  {
    if code == [] || !InAlphabet(code[0]) then [] else [code[0]] + Leading(code[1..])
  }

  /** The letters of a text. */
  ghost function TextLetters(s: seq<octet>): seq<octet> {
    if |s| >= 3 then Quad(s[0], s[1], s[2]) + TextLetters(s[3..])
    else if |s| == 2 then [Letter(V0(s[0])), Letter(V1(s[0], s[1])), Letter(V2(s[1], 0))]
    else if |s| == 1 then [Letter(V0(s[0])), Letter(V1(s[0], 0))]
    else []
  }

  lemma {:induction false} LeadingIs(l: seq<octet>, rest: seq<octet>)
    requires forall i :: 0 <= i < |l| ==> InAlphabet(l[i])
    requires rest != [] && !InAlphabet(rest[0])
    ensures Leading(l + rest) == l
  {
    hide InAlphabet;
    if l == [] {
      assert l + rest == rest;
    } else {
      assert (l + rest)[1..] == l[1..] + rest;
      LeadingIs(l[1..], rest);
    }
  }

  /** A text is its letters and then padding. */
  lemma {:induction false} TextIs(s: seq<octet>) returns (pads: seq<octet>)
    ensures Text(s) == TextLetters(s) + pads && (pads == [] || pads == [PAD] || pads == [PAD, PAD])
    ensures forall i :: 0 <= i < |TextLetters(s)| ==> InAlphabet(TextLetters(s)[i])
    decreases |s|
  {
    hide InAlphabet, Letter, V0, V1, V2, V3;
    if |s| >= 3 {
      pads := TextIs(s[3..]);
      LettersOf(s[0], s[1], s[2]);
      Assoc(Quad(s[0], s[1], s[2]), TextLetters(s[3..]), pads);
    } else if |s| == 2 {
      pads := [PAD];
      LettersOf(s[0], s[1], 0);
    } else if |s| == 1 {
      pads := [PAD, PAD];
      LettersOf(s[0], 0, 0);
    } else {
      pads := [];
    }
  }

  lemma LettersOf(a: octet, b: octet, c: octet)
    ensures InAlphabet(Letter(V0(a))) && InAlphabet(Letter(V1(a, b))) && InAlphabet(Letter(V2(b, c))) && InAlphabet(Letter(V3(c)))
    ensures Value(Letter(V0(a))) == V0(a) && Value(Letter(V1(a, b))) == V1(a, b)
    ensures Value(Letter(V2(b, c))) == V2(b, c) && Value(Letter(V3(c))) == V3(c)
    ensures D0(V0(a), V1(a, b)) == a && D1(V1(a, b), V2(b, c)) == b && D2(V2(b, c), V3(c)) == c
  {
    GroupBits(a, b, c);
    ValueOfLetter(V0(a));
    ValueOfLetter(V1(a, b));
    ValueOfLetter(V2(b, c));
    ValueOfLetter(V3(c));
  }

  lemma PlainGroup(a: octet, b: octet, c: octet, rest: seq<octet>)
    ensures Plain(Quad(a, b, c) + rest) == [a, b, c] + Plain(rest)
  {
    hide InAlphabet, Letter, Value, V0, V1, V2, V3, D0, D1, D2;
    LettersOf(a, b, c);
    var l := Quad(a, b, c) + rest;
    assert l[..4] == Quad(a, b, c) && l[4..] == rest;
    if rest == [] { assert l == Quad(a, b, c); }
  }

  /** The letters of a text decode to its bytes. */
  lemma {:induction false} PlainOfLetters(s: seq<octet>)
    ensures Plain(TextLetters(s)) == s
    decreases |s|
  {
    hide InAlphabet, Letter, Value, V0, V1, V2, V3, D0, D1, D2, Quad;
    if |s| >= 3 {
      var rest := TextLetters(s[3..]);
      PlainOfLetters(s[3..]);
      PlainGroup(s[0], s[1], s[2], rest);
      assert s == [s[0], s[1], s[2]] + s[3..];
    } else if |s| == 2 {
      LettersOf(s[0], s[1], 0);
    } else if |s| == 1 {
      LettersOf(s[0], 0, 0);
    }
  }

  /** Base64decode undoes Base64encode. */
  lemma BlockRoundTrip(s: seq<octet>)
    ensures Plain(Leading(Text(s) + [0])) == s
  {
    var pads := TextIs(s);
    assert !InAlphabet(0) && !InAlphabet(PAD);
    hide *;
    Assoc(TextLetters(s), pads, [0]);
    LeadingIs(TextLetters(s), pads + [0]);
    PlainOfLetters(s);
  }

  lemma {:induction false} PlainLength(l: seq<octet>)
    ensures |Plain(l)| == (|l| + 3) / 4 * 3 - (4 - LeftOver(|l|)) % 4
    decreases |l|
  {
    if |l| > 4 { PlainLength(l[4..]); }
  }

  /** What nprbytes has come down to after the loop. */
  function LeftOver(n: nat): nat {
    if n > 4 then LeftOver(n - 4) else n
  }

  /** Base64decode of a zero-terminated text: the bytes, a terminating zero, and how many bytes there are. */
  method Base64Decode(code: seq<octet>) returns (plain: seq<octet>, n: int)
    requires |code| > 0 && code[|code| - 1] == 0
    ensures plain == Plain(Leading(code)) + [0] && n == |plain| - 1
  {
    var nprbytes := CountLetters(code);
    ghost var l := Leading(code);
    PlainLength(l);
    var out, left := DecodeGroups(code, nprbytes);
    var last := DecodeLast(code[nprbytes - left..nprbytes]);
    plain := out + last + [0];
    n := (nprbytes + 3) / 4 * 3 - (4 - left) % 4;
  }

  /** The scan for the end of the letters. */
  method CountLetters(code: seq<octet>) returns (n: nat)
    requires |code| > 0 && code[|code| - 1] == 0
    ensures n < |code| && Leading(code) == code[..n]
  {
    n := 0;
    ghost var l := Leading(code);
    while InAlphabet(code[n])
      invariant n <= |l| < |code|
      decreases |l| - n
    {
      n := n + 1;
    }
  }

  /** The loop over whole groups. */
  method DecodeGroups(code: seq<octet>, n: nat) returns (out: seq<octet>, left: nat)
    requires n <= |code|
    ensures left == LeftOver(n) <= n && left <= 4 && out + LastPlain(code[n - left..n]) == Plain(code[..n])
  {
    hide Value, D0, D1, D2, LastPlain;
    left := n;
    var i: nat := 0;
    out := [];
    ghost var l := code[..n];
    assert l[0..] == l;
    while left > 4
      invariant i + left == n && LeftOver(left) == LeftOver(n)
      invariant out + Plain(l[i..]) == Plain(l)
      decreases left
    {
      ghost var before, rest := out, l[i + 4..];
      assert l[i..][4..] == rest;
      var g := [D0(Value(code[i]), Value(code[i + 1])), D1(Value(code[i + 1]), Value(code[i + 2])), D2(Value(code[i + 2]), Value(code[i + 3]))];
      assert Plain(l[i..]) == g + Plain(rest);
      out := out + g;
      Assoc(before, g, Plain(rest));
      i, left := i + 4, left - 4;
    }
    assert code[i..n] == l[i..];
  }

  /** The up to four letters that are left. */
  method DecodeLast(l: seq<octet>) returns (out: seq<octet>)
    requires |l| <= 4
    ensures out == LastPlain(l)
  {
    out := [];
    if |l| > 1 {
      out := out + [D0(Value(l[0]), Value(l[1]))];
    }
    if |l| > 2 {
      out := out + [D1(Value(l[1]), Value(l[2]))];
    }
    if |l| > 3 {
      out := out + [D2(Value(l[2]), Value(l[3]))];
    }
  }
}
