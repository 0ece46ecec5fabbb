/**
  Machine words: 32-bit arithmetic, and the same operations carried out in 64-bit words of which only the low
  half counts. Each operation is shown to look at the low halves of its arguments only, and to do to them what
  the 32-bit operation does.
 */
module Words {

  type octet = bv8

  /** The low half of a 64-bit word, and a 32-bit word as a 64-bit one. */
  function Mask(x: bv64): bv64 { x & 0xFFFF_FFFF }

  function Widen(a: bv32): bv64 { a as bv64 }

  /** The low half of x is a. */
  ghost predicate Agrees(x: bv64, a: bv32) {
    Widen(a) == Mask(x)
  }

  lemma WideAgrees(a: bv32)
    ensures Agrees(Widen(a), a)
  {
  }

  // ---------- sums ----------

  function Add64(x: bv64, y: bv64): bv64 { x + y }

  function Add32(a: bv32, b: bv32): bv32 { a + b }

  lemma AddMasks(x: bv64, y: bv64)
    ensures Mask(Add64(x, y)) == Mask(Add64(Mask(x), Mask(y)))
  {
  }

  lemma AddWidens(a: bv32, b: bv32)
    ensures Widen(Add32(a, b)) == Mask(Add64(Widen(a), Widen(b)))
  {
  }

  lemma AddAgrees(x: bv64, y: bv64, a: bv32, b: bv32)
    requires Agrees(x, a) && Agrees(y, b)
    ensures Agrees(Add64(x, y), Add32(a, b))
  {
    hide Mask, Widen, Add64, Add32;
    AddMasks(x, y);
    AddWidens(a, b);
  }

  // ---------- rotations ----------

  /** The macro S of framework/md5.c. */
  function Rotate64(x: bv64, n: bv8): bv64
    requires 0 < n < 32
  {
    (x << n) | ((x & 0xFFFF_FFFF) >> (32 - n))
  }

  function Rotate32(a: bv32, n: bv8): bv32
    requires 0 < n < 32
  {
    (a << n) | (a >> (32 - n))
  }

  lemma RotateMasks(x: bv64, n: bv8)
    requires 0 < n < 32
    ensures Mask(Rotate64(x, n)) == Mask(Rotate64(Mask(x), n))
  {
  }

  lemma RotateWidens(a: bv32, n: bv8)
    requires 0 < n < 32
    ensures Widen(Rotate32(a, n)) == Mask(Rotate64(Widen(a), n))
  {
  }

  lemma RotateAgrees(x: bv64, a: bv32, n: bv8)
    requires 0 < n < 32 && Agrees(x, a)
    ensures Agrees(Rotate64(x, n), Rotate32(a, n))
  {
    hide Mask, Widen, Rotate64, Rotate32;
    RotateMasks(x, n);
    RotateWidens(a, n);
  }

  // ---------- bytes ----------

  function Or64(x: bv64, y: bv64): bv64 { x | y }

  function Or32(a: bv32, b: bv32): bv32 { a | b }

  lemma OrMasks(x: bv64, y: bv64)
    ensures Mask(Or64(x, y)) == Or64(Mask(x), Mask(y))
  {
  }

  lemma OrWidens(a: bv32, b: bv32)
    ensures Widen(Or32(a, b)) == Or64(Widen(a), Widen(b))
  {
  }

  lemma OrAgrees(x: bv64, y: bv64, a: bv32, b: bv32)
    requires Agrees(x, a) && Agrees(y, b)
    ensures Agrees(Or64(x, y), Or32(a, b))
  {
    hide Mask, Widen, Or64, Or32;
    OrMasks(x, y);
    OrWidens(a, b);
  }

  /** A byte moved up by n bits. */
  function At64(p: octet, n: bv8): bv64
    requires n <= 24
  {
    (p as bv64) << n
  }

  function At32(p: octet, n: bv8): bv32
    requires n <= 24
  {
    (p as bv32) << n
  }

  lemma AtAgrees(p: octet, n: bv8)
    requires n <= 24
    ensures Agrees(At64(p, n), At32(p, n))
  {
  }

  /** GET_UINT32. */
  function Word64(p: octet, q: octet, r: octet, s: octet): bv64 {
    Or64(Or64(Or64(At64(p, 0), At64(q, 8)), At64(r, 16)), At64(s, 24))
  }

  function Word32(p: octet, q: octet, r: octet, s: octet): bv32 {
    Or32(Or32(Or32(At32(p, 0), At32(q, 8)), At32(r, 16)), At32(s, 24))
  }

  lemma WordAgrees(p: octet, q: octet, r: octet, s: octet)
    ensures Agrees(Word64(p, q, r, s), Word32(p, q, r, s))
  {
    hide Agrees, Or64, Or32, At64, At32;
    AtAgrees(p, 0);
    AtAgrees(q, 8);
    AtAgrees(r, 16);
    AtAgrees(s, 24);
    OrAgrees(At64(p, 0), At64(q, 8), At32(p, 0), At32(q, 8));
    OrAgrees(Or64(At64(p, 0), At64(q, 8)), At64(r, 16), Or32(At32(p, 0), At32(q, 8)), At32(r, 16));
    OrAgrees(Or64(Or64(At64(p, 0), At64(q, 8)), At64(r, 16)), At64(s, 24),
             Or32(Or32(At32(p, 0), At32(q, 8)), At32(r, 16)), At32(s, 24));
  }

  // The four bytes of a word, the low one first.
  function Byte0(n: bv64): octet { (n & 0xff) as bv8 }
  function Byte1(n: bv64): octet { ((n >> 8) & 0xff) as bv8 }
  function Byte2(n: bv64): octet { ((n >> 16) & 0xff) as bv8 }
  function Byte3(n: bv64): octet { ((n >> 24) & 0xff) as bv8 }

  /** PUT_UINT32. */
  function Put64(n: bv64): seq<octet> {
    [Byte0(n), Byte1(n), Byte2(n), Byte3(n)]
  }

  function Put32(a: bv32): seq<octet> {
    [(a & 0xff) as bv8, ((a >> 8) & 0xff) as bv8, ((a >> 16) & 0xff) as bv8, ((a >> 24) & 0xff) as bv8]
  }

  lemma PutMasks(n: bv64)
    ensures Byte0(n) == Byte0(Mask(n)) && Byte1(n) == Byte1(Mask(n)) && Byte2(n) == Byte2(Mask(n)) && Byte3(n) == Byte3(Mask(n))
  {
  }

  lemma PutWidens(a: bv32)
    ensures Put32(a) == [Byte0(Widen(a)), Byte1(Widen(a)), Byte2(Widen(a)), Byte3(Widen(a))]
  {
  }

  lemma PutAgrees(n: bv64, a: bv32)
    requires Agrees(n, a)
    ensures Put64(n) == Put32(a)
  {
    hide Mask, Widen, Byte0, Byte1, Byte2, Byte3, Put32;
    PutMasks(n);
    PutWidens(a);
  }

  // ---------- the round functions ----------

  // The four definitions of the macro F of framework/md5.c.
  function F64(x: bv64, y: bv64, z: bv64): bv64 { z ^ (x & (y ^ z)) }
  function G64(x: bv64, y: bv64, z: bv64): bv64 { y ^ (z & (x ^ y)) }
  function H64(x: bv64, y: bv64, z: bv64): bv64 { x ^ y ^ z }
  function I64(x: bv64, y: bv64, z: bv64): bv64 { y ^ (x | !z) }

  // F, G, H and I of section 3.4 of RFC 1321.
  function F32(x: bv32, y: bv32, z: bv32): bv32 { (x & y) | (!x & z) }
  function G32(x: bv32, y: bv32, z: bv32): bv32 { (x & z) | (y & !z) }
  function H32(x: bv32, y: bv32, z: bv32): bv32 { x ^ y ^ z }
  function I32(x: bv32, y: bv32, z: bv32): bv32 { y ^ (x | !z) }

  lemma FMasks(x: bv64, y: bv64, z: bv64)
    ensures Mask(F64(x, y, z)) == Mask(F64(Mask(x), Mask(y), Mask(z)))
  {
  }

  lemma FWidens(a: bv32, b: bv32, c: bv32)
    ensures Widen(F32(a, b, c)) == Mask(F64(Widen(a), Widen(b), Widen(c)))
  {
  }

  lemma FAgrees(x: bv64, y: bv64, z: bv64, a: bv32, b: bv32, c: bv32)
    requires Agrees(x, a) && Agrees(y, b) && Agrees(z, c)
    ensures Agrees(F64(x, y, z), F32(a, b, c))
  {
    hide Mask, Widen, F64, F32;
    FMasks(x, y, z);
    FWidens(a, b, c);
  }

  lemma GMasks(x: bv64, y: bv64, z: bv64)
    ensures Mask(G64(x, y, z)) == Mask(G64(Mask(x), Mask(y), Mask(z)))
  {
  }

  lemma GWidens(a: bv32, b: bv32, c: bv32)
    ensures Widen(G32(a, b, c)) == Mask(G64(Widen(a), Widen(b), Widen(c)))
  {
  }

  lemma GAgrees(x: bv64, y: bv64, z: bv64, a: bv32, b: bv32, c: bv32)
    requires Agrees(x, a) && Agrees(y, b) && Agrees(z, c)
    ensures Agrees(G64(x, y, z), G32(a, b, c))
  {
    hide Mask, Widen, G64, G32;
    GMasks(x, y, z);
    GWidens(a, b, c);
  }

  lemma HMasks(x: bv64, y: bv64, z: bv64)
    ensures Mask(H64(x, y, z)) == Mask(H64(Mask(x), Mask(y), Mask(z)))
  {
  }

  lemma HWidens(a: bv32, b: bv32, c: bv32)
    ensures Widen(H32(a, b, c)) == Mask(H64(Widen(a), Widen(b), Widen(c)))
  {
  }

  lemma HAgrees(x: bv64, y: bv64, z: bv64, a: bv32, b: bv32, c: bv32)
    requires Agrees(x, a) && Agrees(y, b) && Agrees(z, c)
    ensures Agrees(H64(x, y, z), H32(a, b, c))
  {
    hide Mask, Widen, H64, H32;
    HMasks(x, y, z);
    HWidens(a, b, c);
  }

  lemma IMasks(x: bv64, y: bv64, z: bv64)
    ensures Mask(I64(x, y, z)) == Mask(I64(Mask(x), Mask(y), Mask(z)))
  {
  }

  lemma IWidens(a: bv32, b: bv32, c: bv32)
    ensures Widen(I32(a, b, c)) == Mask(I64(Widen(a), Widen(b), Widen(c)))
  {
  }

  lemma IAgrees(x: bv64, y: bv64, z: bv64, a: bv32, b: bv32, c: bv32)
    requires Agrees(x, a) && Agrees(y, b) && Agrees(z, c)
    ensures Agrees(I64(x, y, z), I32(a, b, c))
  {
    hide Mask, Widen, I64, I32;
    IMasks(x, y, z);
    IWidens(a, b, c);
  }
}
