/**
  The streaming MD5 of framework/md5.c. Its uint32 is unsigned long, 64 bits wide on the server's platform,
  so the rounds run in 64-bit words of which only the low halves mean anything.
 */
module Md5 {

  import opened Words
  import opened Bytes
  import opened Sequences

  type shift = s: bv8 | 0 < s < 32 witness 1
  type index = k: nat | k < 16

  function Mix64(round: nat, x: bv64, y: bv64, z: bv64): bv64 {
    if round == 0 then F64(x, y, z) else if round == 1 then G64(x, y, z) else if round == 2 then H64(x, y, z) else I64(x, y, z)
  }

  function Mix32(round: nat, x: bv32, y: bv32, z: bv32): bv32 {
    if round == 0 then F32(x, y, z) else if round == 1 then G32(x, y, z) else if round == 2 then H32(x, y, z) else I32(x, y, z)
  }

  lemma MixAgrees(round: nat, x: bv64, y: bv64, z: bv64, a: bv32, b: bv32, c: bv32)
    requires Agrees(x, a) && Agrees(y, b) && Agrees(z, c)
    ensures Agrees(Mix64(round, x, y, z), Mix32(round, a, b, c))
  {
    hide Agrees, F64, G64, H64, I64, F32, G32, H32, I32;
    FAgrees(x, y, z, a, b, c);
    GAgrees(x, y, z, a, b, c);
    HAgrees(x, y, z, a, b, c);
    IAgrees(x, y, z, a, b, c);
  }

  // ---------- the 64 steps ----------

  /** The arguments k, s and t of one use of the macro P. */
  datatype Row = Row(k: index, s: shift, t: bv32)

  function Round1(): (r: seq<Row>)
    ensures |r| == 16
  {
    [
      Row(0, 7, 0xD76A_A478), Row(1, 12, 0xE8C7_B756), Row(2, 17, 0x2420_70DB), Row(3, 22, 0xC1BD_CEEE),
      Row(4, 7, 0xF57C_0FAF), Row(5, 12, 0x4787_C62A), Row(6, 17, 0xA830_4613), Row(7, 22, 0xFD46_9501),
      Row(8, 7, 0x6980_98D8), Row(9, 12, 0x8B44_F7AF), Row(10, 17, 0xFFFF_5BB1), Row(11, 22, 0x895C_D7BE),
      Row(12, 7, 0x6B90_1122), Row(13, 12, 0xFD98_7193), Row(14, 17, 0xA679_438E), Row(15, 22, 0x49B4_0821)
    ]
  }

  function Round2(): (r: seq<Row>)
    ensures |r| == 16
  {
    [
      Row(1, 5, 0xF61E_2562), Row(6, 9, 0xC040_B340), Row(11, 14, 0x265E_5A51), Row(0, 20, 0xE9B6_C7AA),
      Row(5, 5, 0xD62F_105D), Row(10, 9, 0x0244_1453), Row(15, 14, 0xD8A1_E681), Row(4, 20, 0xE7D3_FBC8),
      Row(9, 5, 0x21E1_CDE6), Row(14, 9, 0xC337_07D6), Row(3, 14, 0xF4D5_0D87), Row(8, 20, 0x455A_14ED),
      Row(13, 5, 0xA9E3_E905), Row(2, 9, 0xFCEF_A3F8), Row(7, 14, 0x676F_02D9), Row(12, 20, 0x8D2A_4C8A)
    ]
  }

  function Round3(): (r: seq<Row>)
    ensures |r| == 16
  {
    [
      Row(5, 4, 0xFFFA_3942), Row(8, 11, 0x8771_F681), Row(11, 16, 0x6D9D_6122), Row(14, 23, 0xFDE5_380C),
      Row(1, 4, 0xA4BE_EA44), Row(4, 11, 0x4BDE_CFA9), Row(7, 16, 0xF6BB_4B60), Row(10, 23, 0xBEBF_BC70),
      Row(13, 4, 0x289B_7EC6), Row(0, 11, 0xEAA1_27FA), Row(3, 16, 0xD4EF_3085), Row(6, 23, 0x0488_1D05),
      Row(9, 4, 0xD9D4_D039), Row(12, 11, 0xE6DB_99E5), Row(15, 16, 0x1FA2_7CF8), Row(2, 23, 0xC4AC_5665)
    ]
  }

  function Round4(): (r: seq<Row>)
    ensures |r| == 16
  {
    [
      Row(0, 6, 0xF429_2244), Row(7, 10, 0x432A_FF97), Row(14, 15, 0xAB94_23A7), Row(5, 21, 0xFC93_A039),
      Row(12, 6, 0x655B_59C3), Row(3, 10, 0x8F0C_CC92), Row(10, 15, 0xFFEF_F47D), Row(1, 21, 0x8584_5DD1),
      Row(8, 6, 0x6FA8_7E4F), Row(15, 10, 0xFE2C_E6E0), Row(6, 15, 0xA301_4314), Row(13, 21, 0x4E08_11A1),
      Row(4, 6, 0xF753_7E82), Row(11, 10, 0xBD3A_F235), Row(2, 15, 0x2AD7_D2BB), Row(9, 21, 0xEB86_D391)
    ]
  }

  function RowAt(i: nat): Row
    requires i < 64
  {
    if i < 16 then Round1()[i] else if i < 32 then Round2()[i - 16] else if i < 48 then Round3()[i - 32] else Round4()[i - 48]
  }

  /** The order of the words and the rotations in section 3.4 of RFC 1321. */
  function WordOrder(i: nat): index
    requires i < 64
  {
    if i < 16 then i else if i < 32 then (5 * i + 1) % 16 else if i < 48 then (3 * i + 5) % 16 else 7 * i % 16
  }

  function Rotation(i: nat): shift
    requires i < 64
  {
    var j := i % 4;
    if i < 16 then (if j == 0 then 7 else if j == 1 then 12 else if j == 2 then 17 else 22)
    else if i < 32 then (if j == 0 then 5 else if j == 1 then 9 else if j == 2 then 14 else 20)
    else if i < 48 then (if j == 0 then 4 else if j == 1 then 11 else if j == 2 then 16 else 23)
    else (if j == 0 then 6 else if j == 1 then 10 else if j == 2 then 15 else 21)
  }

  // The table T of section 3.4 of RFC 1321, a quarter each: entry i is the integer part of 2^32 times the absolute
  // value of the sine of i.

  function T1(): (t: seq<bv32>)
    ensures |t| == 16
  {
    [
      0xD76A_A478, 0xE8C7_B756, 0x2420_70DB, 0xC1BD_CEEE,
      0xF57C_0FAF, 0x4787_C62A, 0xA830_4613, 0xFD46_9501,
      0x6980_98D8, 0x8B44_F7AF, 0xFFFF_5BB1, 0x895C_D7BE,
      0x6B90_1122, 0xFD98_7193, 0xA679_438E, 0x49B4_0821
    ]
  }

  function T2(): (t: seq<bv32>)
    ensures |t| == 16
  {
    [
      0xF61E_2562, 0xC040_B340, 0x265E_5A51, 0xE9B6_C7AA,
      0xD62F_105D, 0x0244_1453, 0xD8A1_E681, 0xE7D3_FBC8,
      0x21E1_CDE6, 0xC337_07D6, 0xF4D5_0D87, 0x455A_14ED,
      0xA9E3_E905, 0xFCEF_A3F8, 0x676F_02D9, 0x8D2A_4C8A
    ]
  }

  function T3(): (t: seq<bv32>)
    ensures |t| == 16
  {
    [
      0xFFFA_3942, 0x8771_F681, 0x6D9D_6122, 0xFDE5_380C,
      0xA4BE_EA44, 0x4BDE_CFA9, 0xF6BB_4B60, 0xBEBF_BC70,
      0x289B_7EC6, 0xEAA1_27FA, 0xD4EF_3085, 0x0488_1D05,
      0xD9D4_D039, 0xE6DB_99E5, 0x1FA2_7CF8, 0xC4AC_5665
    ]
  }

  function T4(): (t: seq<bv32>)
    ensures |t| == 16
  {
    [
      0xF429_2244, 0x432A_FF97, 0xAB94_23A7, 0xFC93_A039,
      0x655B_59C3, 0x8F0C_CC92, 0xFFEF_F47D, 0x8584_5DD1,
      0x6FA8_7E4F, 0xFE2C_E6E0, 0xA301_4314, 0x4E08_11A1,
      0xF753_7E82, 0xBD3A_F235, 0x2AD7_D2BB, 0xEB86_D391
    ]
  }

  function Additive(i: nat): bv32
    requires i < 64
  {
    if i < 16 then T1()[i] else if i < 32 then T2()[i - 16] else if i < 48 then T3()[i - 32] else T4()[i - 48]
  }

  datatype W64 = W64(a: bv64, b: bv64, c: bv64, d: bv64)
  datatype W32 = W32(a: bv32, b: bv32, c: bv32, d: bv32)

  const START64 := W64(0x6745_2301, 0xEFCD_AB89, 0x98BA_DCFE, 0x1032_5476)
  const START32 := W32(0x6745_2301, 0xEFCD_AB89, 0x98BA_DCFE, 0x1032_5476)

  /** The macro P; the four variables change their roles from one use to the next. */
  function Step64(w: W64, x: seq<bv64>, i: nat): W64
    requires |x| == 16 && i < 64
  {
    var row := RowAt(i);
    var sum := Add64(w.a, Add64(Add64(Mix64(i / 16, w.b, w.c, w.d), x[row.k]), Widen(row.t)));
    W64(w.d, Add64(Rotate64(sum, row.s), w.b), w.b, w.c)
  }

  function Step32(w: W32, x: seq<bv32>, i: nat): W32
    requires |x| == 16 && i < 64
  {
    var sum := Add32(w.a, Add32(Add32(Mix32(i / 16, w.b, w.c, w.d), x[WordOrder(i)]), Additive(i)));
    W32(w.d, Add32(Rotate32(sum, Rotation(i)), w.b), w.b, w.c)
  }

  function Steps64(w: W64, x: seq<bv64>, i: nat): W64
    requires |x| == 16 && i <= 64
    decreases 64 - i
  {
    if i == 64 then w else Steps64(Step64(w, x, i), x, i + 1)
  }

  function Steps32(w: W32, x: seq<bv32>, i: nat): W32
    requires |x| == 16 && i <= 64
    decreases 64 - i
  {
    if i == 64 then w else Steps32(Step32(w, x, i), x, i + 1)
  }

  function Words64(b: seq<octet>): (x: seq<bv64>)
    requires |b| == 64
    ensures |x| == 16
  {
    seq(16, j requires 0 <= j < 16 => Word64(b[4 * j], b[4 * j + 1], b[4 * j + 2], b[4 * j + 3]))
  }

  function Words32(b: seq<octet>): (x: seq<bv32>)
    requires |b| == 64
    ensures |x| == 16
  {
    seq(16, j requires 0 <= j < 16 => Word32(b[4 * j], b[4 * j + 1], b[4 * j + 2], b[4 * j + 3]))
  }

  function Plus64(w: W64, v: W64): W64 { W64(Add64(w.a, v.a), Add64(w.b, v.b), Add64(w.c, v.c), Add64(w.d, v.d)) }
  function Plus32(w: W32, v: W32): W32 { W32(Add32(w.a, v.a), Add32(w.b, v.b), Add32(w.c, v.c), Add32(w.d, v.d)) }

  /** md5_process, and the step of section 3.4 of RFC 1321 for one block. */
  function Process64(w: W64, b: seq<octet>): W64
    requires |b| == 64
  {
    Plus64(w, Steps64(w, Words64(b), 0))
  }

  function Process32(w: W32, b: seq<octet>): W32
    requires |b| == 64
  {
    Plus32(w, Steps32(w, Words32(b), 0))
  }

  // ---------- 64-bit words agree with 32-bit ones ----------

  ghost predicate Agree(w: W64, v: W32) {
    Agrees(w.a, v.a) && Agrees(w.b, v.b) && Agrees(w.c, v.c) && Agrees(w.d, v.d)
  }

  ghost predicate WordsAgree(x: seq<bv64>, y: seq<bv32>) {
    |x| == |y| == 16 && forall j :: 0 <= j < 16 ==> Agrees(x[j], y[j])
  }

  lemma Order1(i: nat)
    requires i < 16
    ensures Round1()[i].k == WordOrder(i) && Round1()[i].s == Rotation(i)
  {
  }

  lemma Constants1(i: nat)
    requires i < 16
    ensures Round1()[i].t == T1()[i]
  {
  }

  lemma Order2(i: nat)
    requires i < 16
    ensures Round2()[i].k == WordOrder(i + 16) && Round2()[i].s == Rotation(i + 16)
  {
  }

  lemma Constants2(i: nat)
    requires i < 16
    ensures Round2()[i].t == T2()[i]
  {
  }

  lemma Order3(i: nat)
    requires i < 16
    ensures Round3()[i].k == WordOrder(i + 32) && Round3()[i].s == Rotation(i + 32)
  {
  }

  lemma Constants3(i: nat)
    requires i < 16
    ensures Round3()[i].t == T3()[i]
  {
  }

  lemma Order4(i: nat)
    requires i < 16
    ensures Round4()[i].k == WordOrder(i + 48) && Round4()[i].s == Rotation(i + 48)
  {
  }

  lemma Constants4(i: nat)
    requires i < 16
    ensures Round4()[i].t == T4()[i]
  {
  }

  /** The 64 rows of the source name the words, rotations and constants of the RFC. */
  lemma RowsAreRfc(i: nat)
    requires i < 64
    ensures RowAt(i) == Row(WordOrder(i), Rotation(i), Additive(i))
  {
    hide Round1, Round2, Round3, Round4, T1, T2, T3, T4, WordOrder, Rotation;
    if i < 16 {
      Order1(i);
      Constants1(i);
    } else if i < 32 {
      Order2(i - 16);
      Constants2(i - 16);
    } else if i < 48 {
      Order3(i - 32);
      Constants3(i - 32);
    } else {
      Order4(i - 48);
      Constants4(i - 48);
    }
  }

  lemma StepAgrees(w: W64, v: W32, x: seq<bv64>, y: seq<bv32>, i: nat)
    requires Agree(w, v) && WordsAgree(x, y) && i < 64
    ensures Agree(Step64(w, x, i), Step32(v, y, i))
  {
    var row := RowAt(i);
    hide Agrees, Mix64, Mix32, Rotate64, Rotate32, Add64, Add32, Widen, RowAt, WordOrder, Rotation, Additive;
    RowsAreRfc(i);
    MixAgrees(i / 16, w.b, w.c, w.d, v.b, v.c, v.d);
    WideAgrees(row.t);
    var f, f' := Mix64(i / 16, w.b, w.c, w.d), Mix32(i / 16, v.b, v.c, v.d);
    AddAgrees(f, x[row.k], f', y[row.k]);
    AddAgrees(Add64(f, x[row.k]), Widen(row.t), Add32(f', y[row.k]), row.t);
    var s, s' := Add64(Add64(f, x[row.k]), Widen(row.t)), Add32(Add32(f', y[row.k]), row.t);
    AddAgrees(w.a, s, v.a, s');
    RotateAgrees(Add64(w.a, s), Add32(v.a, s'), row.s);
    AddAgrees(Rotate64(Add64(w.a, s), row.s), w.b, Rotate32(Add32(v.a, s'), row.s), v.b);
  }

  lemma {:induction false} StepsAgree(w: W64, v: W32, x: seq<bv64>, y: seq<bv32>, i: nat)
    requires Agree(w, v) && WordsAgree(x, y) && i <= 64
    ensures Agree(Steps64(w, x, i), Steps32(v, y, i))
    decreases 64 - i
  {
    hide Agree, WordsAgree, Step64, Step32;
    if i < 64 {
      assert |x| == |y| == 16 by { WordsLength(x, y); }
      StepAgrees(w, v, x, y, i);
      StepsAgree(Step64(w, x, i), Step32(v, y, i), x, y, i + 1);
    }
  }

  lemma WordsLength(x: seq<bv64>, y: seq<bv32>)
    requires WordsAgree(x, y)
    ensures |x| == |y| == 16
  {
  }

  lemma LoadAgrees(b: seq<octet>)
    requires |b| == 64
    ensures WordsAgree(Words64(b), Words32(b))
  {
    hide Agrees, Word64, Word32;
    forall j | 0 <= j < 16 ensures Agrees(Words64(b)[j], Words32(b)[j]) {
      WordAgrees(b[4 * j], b[4 * j + 1], b[4 * j + 2], b[4 * j + 3]);
    }
  }

  /** A block processed in 64-bit words leaves the RFC's state in the low halves. */
  lemma ProcessAgrees(w: W64, v: W32, b: seq<octet>)
    requires Agree(w, v) && |b| == 64
    ensures Agree(Process64(w, b), Process32(v, b))
  {
    hide Agrees, WordsAgree, Words64, Words32, Steps64, Steps32, Add64, Add32;
    LoadAgrees(b);
    StepsAgree(w, v, Words64(b), Words32(b), 0);
    var p, q := Steps64(w, Words64(b), 0), Steps32(v, Words32(b), 0);
    AddAgrees(w.a, p.a, v.a, q.a);
    AddAgrees(w.b, p.b, v.b, q.b);
    AddAgrees(w.c, p.c, v.c, q.c);
    AddAgrees(w.d, p.d, v.d, q.d);
  }

  // ---------- whole messages ----------

  /** The state after the whole blocks of s. */
  function Fold64(w: W64, s: seq<octet>): W64
    decreases |s|
  {
    if |s| < 64 then w else Fold64(Process64(w, s[..64]), s[64..])
  }

  function Fold32(w: W32, s: seq<octet>): W32
    decreases |s|
  {
    if |s| < 64 then w else Fold32(Process32(w, s[..64]), s[64..])
  }

  lemma {:induction false} FoldAgrees(w: W64, v: W32, s: seq<octet>)
    requires Agree(w, v)
    ensures Agree(Fold64(w, s), Fold32(v, s))
    decreases |s|
  {
    hide Agree, Process64, Process32;
    if |s| >= 64 {
      ProcessAgrees(w, v, s[..64]);
      FoldAgrees(Process64(w, s[..64]), Process32(v, s[..64]), s[64..]);
    }
  }

  /** One block more at the end. */
  lemma {:induction false} FoldLast(w: W64, s: seq<octet>, b: seq<octet>)
    requires |s| % 64 == 0 && |b| == 64
    ensures Fold64(w, s + b) == Process64(Fold64(w, s), b)
    decreases |s|
  {
    hide Process64;
    if s == [] {
      assert s + b == b && b[..64] == b && b[64..] == [];
    } else {
      assert (s + b)[..64] == s[..64] && (s + b)[64..] == s[64..] + b;
      FoldLast(Process64(w, s[..64]), s[64..], b);
    }
  }

  /** The k low bytes of a number, lowest first. */
  function Le(n: nat, k: nat): (s: seq<octet>)
    ensures |s| == k
  {
    if k == 0 then [] else [(n % 256) as bv8] + Le(n / 256, k - 1)
  }

  function Zeros(k: nat): (s: seq<octet>)
    ensures |s| == k
  {
    if k == 0 then [] else [0] + Zeros(k - 1)
  }

  /** How many padding bytes a message of n bytes gets: at least one, up to 56 modulo 64. */
  function PadCount(n: nat): (k: nat)
    ensures 1 <= k <= 64 && (n + k) % 64 == 56
  {
    1 + (119 - n % 64) % 64
  }

  /** Sections 3.1 and 3.2 of RFC 1321: a one bit, zeros, and the length in bits modulo 2^64. */
  function Padded(m: seq<octet>): seq<octet> {
    m + ([0x80] + Zeros(PadCount(|m|) - 1)) + Le(8 * |m|, 8)
  }

  /** The MD5 digest of RFC 1321. */
  function Digest(m: seq<octet>): seq<octet> {
    var w := Fold32(START32, Padded(m));
    Put32(w.a) + Put32(w.b) + Put32(w.c) + Put32(w.d)
  }

  function Digest64(w: W64): seq<octet> {
    Put64(w.a) + Put64(w.b) + Put64(w.c) + Put64(w.d)
  }

  lemma DigestAgrees(m: seq<octet>)
    ensures Digest64(Fold64(START64, Padded(m))) == Digest(m)
  {
    assert Agree(START64, START32);
    hide Fold64, Fold32, Padded, Agrees, Put64, Put32;
    FoldAgrees(START64, START32, Padded(m));
    var w, v := Fold64(START64, Padded(m)), Fold32(START32, Padded(m));
    PutAgrees(w.a, v.a);
    PutAgrees(w.b, v.b);
    PutAgrees(w.c, v.c);
    PutAgrees(w.d, v.d);
  }

  // ---------- the length ----------

  /** The two words of ctx->total after length more bytes. */
  function Low(total0: nat, length: nat): nat { (total0 + length) % WORD }

  function High(total0: nat, total1: nat, length: nat): nat {
    if Low(total0, length) < length then total1 + 1 else total1
  }

  /** The one carry is enough exactly when the low word and the length together stay below 2^33; a chunk of
      less than 2^32 bytes always does. */
  lemma CountIsExactIff(total0: nat, total1: nat, length: nat)
    requires total0 < WORD
    ensures High(total0, total1, length) * WORD + Low(total0, length) == total1 * WORD + total0 + length
      <==> total0 + length < 2 * WORD
  {
  }

  lemma LeStep(n: nat, m: nat, k: nat)
    requires k > 0
    ensures Le(n + 256 * m, k) == Le(n, 1) + Le(n / 256 + m, k - 1)
  {
    assert (n + 256 * m) % 256 == n % 256 && (n + 256 * m) / 256 == n / 256 + m;
    assert Le(n / 256, 0) == [];
  }

  lemma LeLow1(n: nat, q: nat)
    ensures Le(n + 0x100 * q, 1) == Le(n, 1)
  {
    LeStep(n, q, 1);
    LeStep(n, 0, 1);
  }

  lemma LeLow2(n: nat, q: nat)
    ensures Le(n + 0x1_0000 * q, 2) == Le(n, 2)
  {
    hide Le;
    LeStep(n, 0x100 * q, 2);
    LeStep(n, 0, 2);
    LeLow1(n / 256, q);
  }

  lemma LeLow3(n: nat, q: nat)
    ensures Le(n + 0x100_0000 * q, 3) == Le(n, 3)
  {
    hide Le;
    LeStep(n, 0x1_0000 * q, 3);
    LeStep(n, 0, 3);
    LeLow2(n / 256, q);
  }

  /** Four bytes do not see multiples of 2^32. */
  lemma LeLow(n: nat, q: nat)
    ensures Le(n + 0x1_0000_0000 * q, 4) == Le(n, 4)
  {
    hide Le;
    LeStep(n, 0x100_0000 * q, 4);
    LeStep(n, 0, 4);
    LeLow3(n / 256, q);
  }

  lemma LeHalves(n: nat)
    ensures Le(n, 8) == Le(n, 4) + Le(n / 0x1_0000_0000, 4)
  {
    hide Le;
    LeCut(n, 4, 4);
    assert Down(n, 4) == Down(n / 256, 3) == Down(n / 256 / 256, 2) == Down(n / 256 / 256 / 256, 1);
    assert Down(n / 256 / 256 / 256, 1) == Down(n / 256 / 256 / 256 / 256, 0);
  }

  function Down(n: nat, j: nat): nat {
    if j == 0 then n else Down(n / 256, j - 1)
  }

  lemma {:induction false} LeCut(n: nat, j: nat, k: nat)
    ensures Le(n, j + k) == Le(n, j) + Le(Down(n, j), k)
    decreases j
  {
    if j > 0 { LeCut(n / 256, j - 1, k); }
  }

  /** The two words that md5_finish writes are the length in bits modulo 2^64. */
  lemma LengthField(total0: nat, total1: nat, length: nat)
    requires total0 < WORD && total1 * WORD + total0 == length
    ensures Le(8 * total0, 4) + Le(total0 / 0x2000_0000 + 8 * total1, 4) == Le(8 * length, 8)
  {
    LeHalves(8 * length);
    LeLow(8 * total0, 8 * total1);
    assert 8 * length / 0x1_0000_0000 == total0 / 0x2000_0000 + 8 * total1;
  }

  // ---------- the context ----------

  /** The bytes of s that do not fill a block. */
  function Rest(s: seq<octet>): seq<octet> {
    s[|s| / 64 * 64..]
  }

  /** The low word always counts right, the two words together while no carry was lost. */
  ghost predicate Counts(total0: nat, total1: nat, n: nat, exact: bool) {
    total0 == n % WORD && total1 <= n / WORD && (exact <==> total1 == n / WORD)
  }

  /** The state has taken in the whole blocks of s, the buffer begins with the rest. */
  ghost predicate Holds(state: W64, buffer: seq<octet>, s: seq<octet>) {
    state == Fold64(START64, s) && Rest(s) <= buffer
  }

  class Context {
    var total0: nat
    var total1: nat
    var state: W64
    const buffer: array<octet>
    ghost var seen: seq<octet>  // everything handed in so far
    ghost var exact: bool       // no chunk was too long for the counter

    /** The counters hold the length of what was seen, the state its whole blocks, the buffer the rest. */
    ghost predicate Valid()
      reads this, buffer
    {
      buffer.Length == 64 && Counts(total0, total1, |seen|, exact) && Holds(state, buffer[..], seen)
    }

    /** md5_starts. */
    constructor ()
      ensures Valid() && fresh(buffer) && seen == [] && exact
    {
      total0, total1, state := 0, 0, START64;
      buffer := new octet[64];
      seen, exact := [], true;
    }

    /** md5_process: the 64 steps. */
    method Process(data: seq<octet>)
      requires |data| == 64
      modifies this`state
      ensures state == Process64(old(state), data)
    {
      hide Words64, Step64;
      var x := Words64(data);
      var w := state;
      for i := 0 to 64
        invariant Steps64(w, x, i) == Steps64(state, x, 0) && state == old(state)
      {
        w := Step64(w, x, i);
      }
      state := Plus64(state, w);
    }

    /** memcpy into the buffer. */
    method Fill(at: nat, bytes: seq<octet>)
      requires at + |bytes| <= buffer.Length
      modifies buffer
      ensures buffer[..at + |bytes|] == old(buffer[..at]) + bytes
    {
      for i := 0 to |bytes|
        invariant buffer[..at] == old(buffer[..at]) && buffer[at..at + i] == bytes[..i]
      {
        buffer[at + i] := bytes[i];
      }
      assert buffer[..at + |bytes|] == buffer[..at] + buffer[at..at + |bytes|];
    }

    /** md5_update: after it the state and the buffer stand for everything seen, input included. The counter stays
        exact if and only if its low word and the length together are below 2^33, as with every chunk of less than
        2^32 bytes. */
    method Update(input: seq<octet>)
      requires Valid()
      modifies this, buffer
      ensures Valid() && seen == old(seen) + input
      ensures exact == (old(exact) && old(total0) + |input| < 2 * WORD)
    {
      hide Counts, Holds;
      LowWord();
      if |input| == 0 {
        assert seen + input == seen;
        return;
      }
      ghost var before := seen;
      LeftIs(total0, total1, before, exact);
      var left := total0 % 64;
      Count(|input|, |before|);
      Absorb(input, left, before);
      seen := before + input;
    }

    /** The two words of the counter. */
    method Count(length: nat, ghost n: nat)
      requires Counts(total0, total1, n, exact)
      modifies this`total0, this`total1, this`exact
      ensures Counts(total0, total1, n + length, exact)
      ensures exact == (old(exact) && old(total0) + length < 2 * WORD)
    {
      NextCounts(total0, total1, n, length, exact);
      exact := exact && total0 + length < 2 * WORD;
      total0 := Low(total0, length);
      if total0 < length {
        total1 := total1 + 1;
      }
    }

    /** The part of md5_update behind the counters. */
    method Absorb(input: seq<octet>, left: nat, ghost before: seq<octet>)
      requires buffer.Length == 64 && left == |Rest(before)| < 64 && Holds(state, buffer[..], before)
      modifies this`state, buffer
      ensures Holds(state, buffer[..], before + input)
    {
      assert buffer[..left] == Rest(before);
      assert state == Fold64(START64, before);
      hide *;
      var pos, kept := Complete(input, left, before);
      pos := WholeBlocks(input, pos, kept, before);
      KeepRest(kept, input[pos..], before + input[..pos]);
      SplitAt(before, input, pos);
    }

    /** What does not fill a block waits in the buffer. */
    method KeepRest(kept: nat, tail: seq<octet>, ghost done: seq<octet>)
      requires buffer.Length == 64 && kept + |tail| < 64
      requires kept == |Rest(done)| && buffer[..kept] == Rest(done) && state == Fold64(START64, done)
      modifies buffer
      ensures Holds(state, buffer[..], done + tail)
    {
      FoldShort(done, tail);
      hide Fold64, Rest;
      Fill(kept, tail);
      assert buffer[..kept + |tail|] <= buffer[..];
    }

    /** The loop over the whole blocks of the input. */
    method WholeBlocks(input: seq<octet>, pos0: nat, kept: nat, ghost before: seq<octet>) returns (pos: nat)
      requires pos0 <= |input| && kept == |Rest(before + input[..pos0])| && state == Fold64(START64, before + input[..pos0])
      requires kept <= 64 == buffer.Length && buffer[..kept] == Rest(before + input[..pos0])
      requires kept > 0 ==> kept + |input| - pos0 < 64
      modifies this`state
      ensures pos <= |input| && kept + |input| - pos < 64 && (kept > 0 ==> pos == pos0)
      ensures buffer[..kept] == Rest(before + input[..pos])
      ensures kept == |Rest(before + input[..pos])| && state == Fold64(START64, before + input[..pos])
    {
      hide *;
      pos := pos0;
      while |input| - pos >= 64
        invariant pos <= |input| && kept == |Rest(before + input[..pos])| && (kept > 0 ==> pos == pos0)
        invariant state == Fold64(START64, before + input[..pos])
      {
        ghost var done, next := before + input[..pos], input[pos..pos + 64];
        FoldFill(done, next);
        assert Rest(done) + next == next;
        assert before + input[..pos + 64] == done + next;
        Process(input[pos..pos + 64]);
        pos := pos + 64;
      }
    }

    /** Completing the block in the buffer, if there is one and the input is long enough. */
    method Complete(input: seq<octet>, left: nat, ghost before: seq<octet>) returns (pos: nat, kept: nat)
      requires buffer.Length == 64 && left == |Rest(before)| < 64
      requires state == Fold64(START64, before) && buffer[..left] == Rest(before)
      modifies this`state, buffer
      ensures pos <= |input| && kept == |Rest(before + input[..pos])| <= 64 && buffer[..kept] == Rest(before + input[..pos])
      ensures kept > 0 ==> kept + |input| - pos < 64
      ensures state == Fold64(START64, before + input[..pos])
    {
      hide Fold64, Rest, Process64;
      var fill := 64 - left;
      pos, kept := 0, left;
      assert before + input[..0] == before;
      if left > 0 && |input| >= fill {
        Fill(left, input[..fill]);
        FoldFill(before, input[..fill]);
        assert buffer[..left + fill] == buffer[..];
        Process(buffer[..]);
        pos, kept := fill, 0;
      }
    }

    /** md5_finish: the digest of everything seen. */
    method Finish() returns (digest: seq<octet>)
      requires Valid()
      modifies this, buffer
      ensures old(exact) ==> digest == Digest(old(seen))
    {
      ghost var m := seen;
      Trailer(total0, total1, |m|, exact);
      DigestAgrees(m);
      LowWord();
      hide *;
      var msglen := LengthBytes(total0, total1);
      var padn := PadSize(total0 % 64);
      Update([0x80] + Zeros(padn - 1));
      LowWord();
      Update(msglen);
      StateIs();
      PaddedIs(m, padn);
      digest := Digest64(state);
    }

    lemma LowWord()
      requires Valid()
      ensures total0 < WORD
    {
    }

    lemma StateIs()
      requires Valid()
      ensures state == Fold64(START64, seen)
    {
    }
  }

  lemma LastIs(n: nat)
    ensures n % WORD % 64 == n % 64
  {
  }

  lemma LeftIs(total0: nat, total1: nat, s: seq<octet>, exact: bool)
    requires Counts(total0, total1, |s|, exact)
    ensures total0 % 64 == |Rest(s)| < 64
  {
    CutBlocks(s);
    LastIs(|s|);
  }

  lemma NextCounts(total0: nat, total1: nat, n: nat, length: nat, exact: bool)
    requires Counts(total0, total1, n, exact)
    ensures Counts(Low(total0, length), High(total0, total1, length), n + length, exact && total0 + length < 2 * WORD)
  {
    CountIsExactIff(total0, n / WORD, length);
    assert (n + length) / WORD == n / WORD + (total0 + length) / WORD && (n + length) % WORD == (total0 + length) % WORD;
  }

  /** The high and the low word that md5_finish writes. */
  function LengthBytes(total0: nat, total1: nat): (s: seq<octet>)
    ensures |s| == 8
  {
    Le(total0 * 8, 4) + Le(total0 / 0x2000_0000 + total1 * 8, 4)
  }

  /** padn. */
  function PadSize(last: nat): (n: nat)
    requires last < 64
    ensures 1 <= n <= 64
  {
    if last < 56 then 56 - last else 120 - last
  }

  /** What md5_finish appends is the RFC's padding and length. */
  lemma Trailer(total0: nat, total1: nat, n: nat, exact: bool)
    requires Counts(total0, total1, n, exact)
    ensures PadSize(total0 % 64) == PadCount(n) && (exact ==> LengthBytes(total0, total1) == Le(8 * n, 8))
  {
    LastIs(n);
    if exact { LengthField(total0, total1, n); }
    hide Le, PadCount, PadSize;
    PadIs(n);
  }

  /** padn brings the length to 56 modulo 64. */
  lemma PadIs(n: nat)
    ensures PadSize(n % 64) == PadCount(n)
  {
  }

  lemma PaddedIs(m: seq<octet>, padn: nat)
    requires padn == PadCount(|m|)
    ensures m + ([0x80] + Zeros(padn - 1)) + Le(8 * |m|, 8) == Padded(m)
  {
  }

  /** The whole blocks and the rest. */
  lemma CutBlocks(s: seq<octet>)
    ensures |Rest(s)| == |s| % 64 && s == s[..|s| / 64 * 64] + Rest(s) && |s| / 64 * 64 % 64 == 0
  {
  }

  /** A block completed from the rest and new bytes. */
  lemma FoldFill(s: seq<octet>, t: seq<octet>)
    requires |Rest(s) + t| == 64
    ensures Fold64(START64, s + t) == Process64(Fold64(START64, s), Rest(s) + t) && Rest(s + t) == []
  {
    var whole, b := s[..|s| / 64 * 64], Rest(s) + t;
    CutBlocks(s);
    RestEmpty(s, t);
    hide Rest, Fold64, Process64;
    FoldWhole(START64, s);
    FoldLast(START64, whole, b);
    Assoc(whole, Rest(s), t);
  }

  lemma RestEmpty(s: seq<octet>, t: seq<octet>)
    requires |Rest(s) + t| == 64
    ensures Rest(s + t) == []
  {
    CutBlocks(s);
    CutBlocks(s + t);
  }

  lemma SplitAt(s: seq<octet>, t: seq<octet>, pos: nat)
    requires pos <= |t|
    ensures s + t == s + t[..pos] + t[pos..]
  {
  }

  /** Bytes that do not fill a block only wait. */
  lemma FoldShort(s: seq<octet>, t: seq<octet>)
    requires |Rest(s) + t| < 64
    ensures Fold64(START64, s + t) == Fold64(START64, s) && Rest(s + t) == Rest(s) + t
  {
    RestShort(s, t);
    hide *;
    FoldWhole(START64, s);
    FoldWhole(START64, s + t);
  }

  lemma RestShort(s: seq<octet>, t: seq<octet>)
    requires |Rest(s) + t| < 64
    ensures Rest(s + t) == Rest(s) + t && (s + t)[..|s + t| / 64 * 64] == s[..|s| / 64 * 64]
  {
    CutBlocks(s);
    SameBlocks(|s|, |t|);
    var k := |s| / 64 * 64;
    assert (s + t)[..k] == s[..k] && (s + t)[k..] == s[k..] + t;
  }

  lemma SameBlocks(n: nat, m: nat)
    requires n % 64 + m < 64
    ensures (n + m) / 64 * 64 == n / 64 * 64
  {
  }

  lemma {:induction false} FoldWhole(w: W64, s: seq<octet>)
    ensures Fold64(w, s) == Fold64(w, s[..|s| / 64 * 64])
    decreases |s|
  {
    hide Process64;
    var k := |s| / 64 * 64;
    if |s| >= 64 {
      FoldWhole(Process64(w, s[..64]), s[64..]);
      assert s[..k][..64] == s[..64] && s[..k][64..] == s[64..][..k - 64];
    }
  }

  /** md5_starts, md5_update for each chunk and md5_finish: however a message is cut, its RFC 1321 digest. */
  method DigestOf(chunks: seq<seq<octet>>) returns (digest: seq<octet>)
    requires forall i :: 0 <= i < |chunks| ==> |chunks[i]| < WORD
    ensures digest == Digest(Concat(chunks))
  {
    var ctx := new Context();
    hide Digest;
    for i := 0 to |chunks|
      invariant ctx.Valid() && ctx.exact && ctx.seen == Concat(chunks[..i]) && fresh(ctx) && fresh(ctx.buffer)
    {
      ConcatSnoc(chunks[..i], chunks[i]);
      assert chunks[..i + 1] == chunks[..i] + [chunks[i]];
      ctx.LowWord();
      ctx.Update(chunks[i]);
    }
    assert chunks[..|chunks|] == chunks;
    digest := ctx.Finish();
  }
}
