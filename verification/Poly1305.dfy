/**
 * The reduced Poly1305 of src/poly: five 32-bit limbs, double-and-add
 * multiplication modulo P = 2^130 - 5 and one conditional subtraction per
 * addition. The limb code is proved against integer functions, and those
 * against section 2.5 of RFC 8439.
 */
module Poly1305 {
  import opened Words

  const TWO128: int := 0x1_0000_0000_0000_0000_0000_0000_0000_0000
  const TWO130: int := 0x4_0000_0000_0000_0000_0000_0000_0000_0000
  const TWO160: int := 0x1_0000_0000_0000_0000_0000_0000_0000_0000_0000_0000
  const P: int := 0x3_ffff_ffff_ffff_ffff_ffff_ffff_ffff_fffb

  function ModP(x: int): (r: int)
    ensures 0 <= r < P
  {
    x % 0x3_ffff_ffff_ffff_ffff_ffff_ffff_ffff_fffb
  }

  /** The multiple k * P, written so that it is linear in k. */
  function TimesP(k: int): int
  {
    0x3_ffff_ffff_ffff_ffff_ffff_ffff_ffff_fffb * k
  }

  function Mod128(x: nat): nat
  {
    x % 0x1_0000_0000_0000_0000_0000_0000_0000_0000
  }

  function Mod160(x: nat): nat
  {
    x % 0x1_0000_0000_0000_0000_0000_0000_0000_0000_0000_0000
  }

  /** Five registers holding one little-endian 160-bit number. */
  datatype Limbs = Limbs(l0: word, l1: word, l2: word, l3: word, l4: word)

  function Val(n: Limbs): (v: nat)
    ensures v < TWO160
  {
    n.l0 as int + 0x1_0000_0000 * (n.l1 as int) + 0x1_0000_0000_0000_0000 * (n.l2 as int)
    + 0x1_0000_0000_0000_0000_0000_0000 * (n.l3 as int) + 0x1_0000_0000_0000_0000_0000_0000_0000_0000 * (n.l4 as int)
  }

  /** The number in four words, least significant first. */
  function Num4(b: seq<word>): (v: nat)
    requires |b| == 4
    ensures v < TWO128
  {
    b[0] as int + 0x1_0000_0000 * (b[1] as int) + 0x1_0000_0000_0000_0000 * (b[2] as int)
    + 0x1_0000_0000_0000_0000_0000_0000 * (b[3] as int)
  }

  function FromArray(s: seq<word>): Limbs
    requires |s| == 5
  {
    Limbs(s[0], s[1], s[2], s[3], s[4])
  }

  // ----- specification -----

  /** What the macro does to the numbers: a 160-bit sum, less P when the signed top limb exceeds 3. */
  function AddReduced(x: nat, y: nat): (v: nat)
  {
    var sum := Mod160(x + y);
    if TWO130 <= sum < TWO160 / 2 then sum - P else sum
  }

  /** Double-and-add over the low n bits of key: the product and the doubled multiplicand. */
  function MulBits(prod: nat, acc: nat, key: nat, n: nat): (nat, nat)
    decreases n, acc
  {
    if n == 0 then (prod, acc)
    else MulBits(if key % 2 == 1 then AddReduced(prod, acc) else prod, AddReduced(acc, acc), key / 2, n - 1)
  }

  /** All 128 steps, least significant key bit first. */
  function MulKey(acc: nat, r: nat): nat
  {
    MulBits(0, acc, r, 128).0
  }

  function MaskedReduce(n: nat): nat
  {
    if P <= n < TWO130 then n - P else n
  }

  /** The product before the final conditional subtraction, and the stored accumulator after it. */
  function LastProduct(acc: nat, r: nat, block: nat): nat
  {
    MulKey(AddReduced(acc, block + TWO128), r)
  }

  function FeedSpec(acc: nat, r: nat, block: nat): nat
  {
    MaskedReduce(LastProduct(acc, r, block))
  }

  function AccSpec(r: nat, blocks: seq<nat>): nat
  {
    if blocks == [] then 0
    else FeedSpec(AccSpec(r, blocks[..|blocks| - 1]), r, blocks[|blocks| - 1])
  }

  /** The accumulator of section 2.5 of RFC 8439 after a sequence of whole 16-byte blocks. */
  function RfcAcc(r: nat, blocks: seq<nat>): nat
  {
    if blocks == [] then 0
    else ModP((RfcAcc(r, blocks[..|blocks| - 1]) + blocks[|blocks| - 1] + TWO128) * r)
  }

  function RfcTag(r: nat, s: nat, blocks: seq<nat>): nat
  {
    Mod128(RfcAcc(r, blocks) + s)
  }

  /** The 128-bit clamp mask of section 2.5.1 of RFC 8439. */
  const CLAMP: nat := 0x0fff_fffc_0fff_fffc_0fff_fffc_0fff_ffff

  /** The assumption in the comment of poly_reduction_req, for the last block fed. */
  predicate LastProductSmall(r: nat, blocks: seq<nat>)
  {
    blocks == []
    || LastProduct(AccSpec(r, blocks[..|blocks| - 1]), r, blocks[|blocks| - 1]) < TWO130
  }

  predicate Blocks(blocks: seq<nat>)
  {
    forall i :: 0 <= i < |blocks| ==> blocks[i] < TWO128
  }

  // ----- limb code -----

  /** The add, addc, addc, addc, addc chain: a 160-bit sum whose carry out is dropped. */
  method AddChain(t: Limbs, s: Limbs) returns (r: Limbs)
    ensures Val(r) == Mod160(Val(t) + Val(s))
  {
    var r0, c0 := AddLow(t.l0, s.l0, 0), AddCarry(t.l0, s.l0, 0);
    var r1, c1 := AddLow(t.l1, s.l1, c0), AddCarry(t.l1, s.l1, c0);
    var r2, c2 := AddLow(t.l2, s.l2, c1), AddCarry(t.l2, s.l2, c1);
    var r3, c3 := AddLow(t.l3, s.l3, c2), AddCarry(t.l3, s.l3, c2);
    var r4, c4 := AddLow(t.l4, s.l4, c3), AddCarry(t.l4, s.l4, c3);
    r := Limbs(r0, r1, r2, r3, r4);
    assert Val(r) + 0x1_0000_0000_0000_0000_0000_0000_0000_0000_0000_0000 * (c4 as int) == Val(t) + Val(s);
    Wrap160(Val(r), c4, Val(t) + Val(s));
  }

  lemma Wrap160(r: nat, c: nat, v: nat)
    requires r < TWO160 && r + 0x1_0000_0000_0000_0000_0000_0000_0000_0000_0000_0000 * c == v
    ensures Mod160(v) == r
  {
  }

  lemma TopLimb(n: Limbs)
    ensures Signed(n.l4) > 3 <==> TWO130 <= Val(n) < TWO160 / 2
  {
  }

  function Signed(w: word): int
  {
    if w < TWO32 / 2 then w else w - TWO32
  }

  lemma MaskWords(m: word, c: word)
    requires m == 0 || m == UINT32_MAX
    ensures BitAnd(m, c) == if m == 0 then 0 else c
  {
    PowersOfTwo();
    AndAllOnes(c, 32);
  }

  /** Under a mask of all ones the second chain adds 5 and 2^160 - 4 * 2^128, that is, subtracts P. */
  lemma MaskedTerm(m: word)
    requires m == 0 || m == UINT32_MAX
    ensures Val(Limbs(BitAnd(m, 5), 0, 0, 0, BitAnd(m, 0xFFFF_FFFC))) == if m == 0 then 0 else TWO160 - P
  {
    MaskWords(m, 5);
    MaskWords(m, 0xFFFF_FFFC);
  }

  /** POLY_ADD_REDUCE, instruction by instruction. */
  method AddReduce(t: Limbs, s: Limbs) returns (r: Limbs)
    ensures Val(r) == AddReduced(Val(t), Val(s))
  {
    hide Val, BitAnd, Signed;
    r := AddChain(t, s);
    TopLimb(r);
    var n1: word := if Signed(r.l4) > 3 then 1 else 0;
    n1 := if n1 == 1 then 0 else 1;
    n1 := AddLow(n1, UINT32_MAX, 0);
    assert n1 == if TWO130 <= Val(r) < TWO160 / 2 then UINT32_MAX else 0;
    MaskedTerm(n1);
    var n2: word := BitAnd(n1, 0xFFFF_FFFC);
    n1 := BitAnd(n1, 5);
    r := AddChain(r, Limbs(n1, 0, 0, 0, n2));
  }

  /** One of the four 32-iteration loops of poly_mul_assign, over one key word. */
  method MulWord(prod: Limbs, acc: Limbs, key: word) returns (prod': Limbs, acc': Limbs)
    ensures (Val(prod'), Val(acc')) == MulBits(Val(prod), Val(acc), key, 32)
  {
    hide Val, AddReduced;
    prod', acc' := prod, acc;
    var r2, r3 := 32, key;
    while r2 != 0
      invariant 0 <= r2 <= 32
      invariant MulBits(Val(prod'), Val(acc'), r3, r2) == MulBits(Val(prod), Val(acc), key, 32)
    {
      if r3 % 2 == 1 {
        prod' := AddReduce(prod', acc');
      }
      acc' := AddReduce(acc', acc');
      r3 := r3 / 2;
      r2 := r2 - 1;
    }
  }

  /** Running m bits and then n bits of the key is running m + n bits. */
  lemma {:induction false} MulBitsSplit(prod: nat, acc: nat, low: nat, high: nat, m: nat, n: nat)
    requires low < Pow2(m)
    ensures MulBits(prod, acc, low + ShiftLeft(high, m), m + n)
         == var mid := MulBits(prod, acc, low, m); MulBits(mid.0, mid.1, high, n)
    decreases m
  {
    hide AddReduced;
    if m != 0 {
      var k := low + ShiftLeft(high, m);
      assert k % 2 == low % 2 && k / 2 == low / 2 + ShiftLeft(high, m - 1);
      MulBitsSplit(if low % 2 == 1 then AddReduced(prod, acc) else prod,
                   AddReduced(acc, acc), low / 2, high, m - 1, n);
    }
  }

  /** The key number, peeled off one word at a time. */
  lemma FourWords(acc: nat, k: seq<word>)
    requires |k| == 4
    ensures MulKey(acc, Num4(k))
         == var s0 := MulBits(0, acc, k[0], 32);
            var s1 := MulBits(s0.0, s0.1, k[1], 32);
            var s2 := MulBits(s1.0, s1.1, k[2], 32);
            MulBits(s2.0, s2.1, k[3], 32).0
  {
    hide AddReduced, MulBits, ShiftLeft, Pow2;
    PowersOfTwo();
    var h2: nat := k[2] as int + 0x1_0000_0000 * (k[3] as int);
    var h1: nat := k[1] as int + 0x1_0000_0000 * h2;
    ShiftLeftIsMul(h1, 32);
    ShiftLeftIsMul(h2, 32);
    ShiftLeftIsMul(k[3], 32);
    var s0 := MulBits(0, acc, k[0], 32);
    var s1 := MulBits(s0.0, s0.1, k[1], 32);
    MulBitsSplit(0, acc, k[0], h1, 32, 96);
    MulBitsSplit(s0.0, s0.1, k[1], h2, 32, 64);
    MulBitsSplit(s1.0, s1.1, k[2], k[3], 32, 32);
  }

  lemma ZeroLimbs()
    ensures Val(Limbs(0, 0, 0, 0, 0)) == 0
  {
  }

  lemma ZeroNum(z: seq<word>)
    requires z == [0, 0, 0, 0]
    ensures Num4(z) == 0
  {
  }

  /** poly_mul_assign: a := a * r modulo P, lazily reduced. */
  method PolyMulAssign(a: array<word>, r: array<word>)
    requires a.Length == 5 && r.Length == 4 && a != r
    modifies a
    ensures Val(FromArray(a[..])) == MulKey(old(Val(FromArray(a[..]))), Num4(r[..]))
  {
    hide Val, AddReduced, MulBits;
    var prod := Limbs(0, 0, 0, 0, 0);
    var acc := FromArray(a[..]);
    ghost var key := r[..];
    FourWords(Val(acc), key);
    ZeroLimbs();
    prod, acc := MulWord(prod, acc, r[0]);
    prod, acc := MulWord(prod, acc, r[1]);
    prod, acc := MulWord(prod, acc, r[2]);
    prod, acc := MulWord(prod, acc, r[3]);
    a[0], a[1], a[2], a[3], a[4] := prod.l0, prod.l1, prod.l2, prod.l3, prod.l4;
    assert FromArray(a[..]) == prod;
  }

  /** poly_add_reduce: the block with 2^128 added, taken into the accumulator. */
  method PolyAddReduce(a: array<word>, block: seq<word>)
    requires a.Length == 5 && |block| == 4
    modifies a
    ensures Val(FromArray(a[..])) == AddReduced(old(Val(FromArray(a[..]))), Num4(block) + TWO128)
  {
    var r := AddReduce(FromArray(a[..]), Limbs(block[0], block[1], block[2], block[3], 1));
    a[0], a[1], a[2], a[3], a[4] := r.l0, r.l1, r.l2, r.l3, r.l4;
    assert FromArray(a[..]) == r;
  }

  /** poly_reduction_req: all ones exactly when the number lies in [P, 2^130). */
  function ReductionReq(n: Limbs): (mask: word)
    ensures mask == if P <= Val(n) < TWO130 then UINT32_MAX else 0
  {
    var b := n.l4 == 3;
    var c := n.l3 == UINT32_MAX && n.l2 == UINT32_MAX && n.l1 == UINT32_MAX;
    var d := n.l0 >= 0xFFFF_FFFB;
    if b && c && d then UINT32_MAX else 0
  }

  /** poly_masked_reduce: subtracts P under a mask of all ones. */
  method PolyMaskedReduce(a: array<word>, mask: word)
    requires a.Length == 5
    requires mask == 0 || mask == UINT32_MAX
    modifies a
    ensures Val(FromArray(a[..]))
         == Mod160(old(Val(FromArray(a[..]))) + if mask == 0 then 0 else TWO160 - P)
  {
    hide Val, BitAnd, Mod160;
    MaskedTerm(mask);
    MaskWords(mask, 0);
    var r7: word, r8: word, r9: word := BitAnd(mask, 5), BitAnd(mask, 0), BitAnd(mask, 0xFFFF_FFFC);
    var r := AddChain(FromArray(a[..]), Limbs(r7, r8, r8, r8, r9));
    a[0], a[1], a[2], a[3], a[4] := r.l0, r.l1, r.l2, r.l3, r.l4;
    assert FromArray(a[..]) == r;
  }

  lemma Wrap128(r: nat, c: nat, v: nat)
    requires r < TWO128 && r + 0x1_0000_0000_0000_0000_0000_0000_0000_0000 * c == v
    ensures Mod128(v) == r
  {
  }

  /** poly_add_128: a four-word sum whose carry out is dropped. */
  method PolyAdd128(a: seq<word>, b: seq<word>) returns (t: seq<word>)
    requires |a| == 4 && |b| == 4
    ensures |t| == 4 && Num4(t) == Mod128(Num4(a) + Num4(b))
  {
    hide Mod128;
    var r0, c0 := AddLow(a[0], b[0], 0), AddCarry(a[0], b[0], 0);
    var r1, c1 := AddLow(a[1], b[1], c0), AddCarry(a[1], b[1], c0);
    var r2, c2 := AddLow(a[2], b[2], c1), AddCarry(a[2], b[2], c1);
    var r3, c3 := AddLow(a[3], b[3], c2), AddCarry(a[3], b[3], c2);
    t := [r0, r1, r2, r3];
    assert Num4(t) + 0x1_0000_0000_0000_0000_0000_0000_0000_0000 * (c3 as int) == Num4(a) + Num4(b);
    Wrap128(Num4(t), c3, Num4(a) + Num4(b));
  }

  lemma AndWord(x: word, y: nat, m: word, n: nat)
    ensures BitAnd(x as int + 0x1_0000_0000 * y, m as int + 0x1_0000_0000 * n)
         == BitAnd(x, m) + 0x1_0000_0000 * BitAnd(y, n)
  {
    hide BitAnd;
    PowersOfTwo();
    ShiftLeftIsMul(y, 32);
    ShiftLeftIsMul(n, 32);
    ShiftLeftIsMul(BitAnd(y, n), 32);
    AndConcat(x, m, y, n, 32);
  }

  function ClampedKey(key: seq<word>): (r: seq<word>)
    requires |key| >= 4
    ensures |r| == 4
  {
    [BitAnd(key[0], 0x0FFF_FFFF), BitAnd(key[1], 0x0FFF_FFFC),
     BitAnd(key[2], 0x0FFF_FFFC), BitAnd(key[3], 0x0FFF_FFFC)]
  }

  /** The key words masked one by one form the key number under the RFC's clamp mask. */
  lemma ClampIsRfcClamp(key: seq<word>)
    requires |key| == 4
    ensures Num4(ClampedKey(key)) == BitAnd(Num4(key), CLAMP) && Num4(ClampedKey(key)) < Pow2(124)
  {
    hide BitAnd, Pow2;
    PowersOfTwo();
    var h2: nat := key[2] as int + 0x1_0000_0000 * (key[3] as int);
    var h1: nat := key[1] as int + 0x1_0000_0000 * h2;
    AndWord(key[2], key[3], 0x0FFF_FFFC, 0x0FFF_FFFC);
    AndWord(key[1], h2, 0x0FFF_FFFC, 0x0FFF_FFFC_0FFF_FFFC);
    AndWord(key[0], h1, 0x0FFF_FFFF, 0x0FFF_FFFC_0FFF_FFFC_0FFF_FFFC);
    var c := ClampedKey(key);
    assert c[3] <= 0x0FFF_FFFC;
  }

  /** The bits section 2.5 of RFC 8439 clears: the top four of bytes 3, 7, 11, 15, the low two of 4, 8, 12. */
  predicate Cleared(i: nat)
  {
    (i / 8 % 4 == 3 && i % 8 >= 4) || (i / 8 % 4 == 0 && i / 8 > 0 && i % 8 < 2) || i >= 128
  }

  /** Clamping clears those bits and keeps all others. */
  lemma ClampBits(x: nat, i: nat)
    ensures Bit(BitAnd(x, CLAMP), i) == if Cleared(i) then 0 else Bit(x, i)
  {
    MaskBit(i);
    AndBit(x, CLAMP, i);
    hide Bit, BitAnd, Cleared;
  }

  lemma MaskBit(i: nat)
    ensures Bit(CLAMP, i) == if Cleared(i) then 0 else 1
  {
    hide Bit, Pow2;
    PowersOfTwo();
    var w: nat, v: nat := 0x0fff_fffc, 0x0fff_fffc_0fff_fffc;
    BitConcat(0x0fff_ffff, 0x0fff_fffc_0fff_fffc_0fff_fffc, 32, i);
    LowWordBit(i);
    if i >= 32 {
      BitConcat(w, v, 32, i - 32);
      HighWordBit(i - 32);
      if i >= 64 {
        BitConcat(w, w, 32, i - 64);
        HighWordBit(i - 64);
        if i >= 96 {
          HighWordBit(i - 96);
        }
      }
    }
    assert CLAMP == 0x0fff_ffff + Pow2(32) * 0x0fff_fffc_0fff_fffc_0fff_fffc;
  }

  lemma LowWordBit(i: nat)
    ensures Bit(0x0fff_ffff, i) == if i < 28 then 1 else 0
  {
    hide Bit, Pow2;
    PowersOfTwo();
    OnesBit(28, i);
  }

  lemma HighWordBit(i: nat)
    ensures Bit(0x0fff_fffc, i) == if 2 <= i < 28 then 1 else 0
  {
    hide Bit, Pow2;
    PowersOfTwo();
    BitConcat(0, 0x3ff_ffff, 2, i);
    ZeroBit(i);
    if i >= 2 {
      OnesBit(26, i - 2);
    }
  }

  lemma LowLimbs(a: seq<word>)
    requires |a| == 5
    ensures Val(FromArray(a)) == Num4(a[..4]) + 0x1_0000_0000_0000_0000_0000_0000_0000_0000 * (a[4] as int)
  {
  }

  lemma Mod128Sum(low: nat, top: nat, s: nat)
    ensures Mod128(low + 0x1_0000_0000_0000_0000_0000_0000_0000_0000 * top + s) == Mod128(low + s)
  {
  }

  class PolyContext {
    const r: array<word>
    const s: array<word>
    const a: array<word>

    predicate Valid()
    {
      r.Length == 4 && s.Length == 4 && a.Length == 5 && r != s && r != a && s != a
    }

    ghost function R(): nat reads r requires Valid() { Num4(r[..]) }
    ghost function S(): nat reads s requires Valid() { Num4(s[..]) }
    ghost function A(): nat reads a requires Valid() { Val(FromArray(a[..])) }

    /** poly_init: the clamped half of the one-time key, the other half, and a zero accumulator. */
    constructor (key: seq<word>)
      requires |key| == 8
      ensures Valid() && fresh(r) && fresh(s) && fresh(a)
      ensures R() == BitAnd(Num4(key[..4]), CLAMP) && R() < Pow2(124)
      ensures S() == Num4(key[4..]) && A() == 0
    {
      hide Val, Num4, BitAnd, Pow2;
      ClampIsRfcClamp(key[..4]);
      r := new word[4] [BitAnd(key[0], 0x0FFF_FFFF), BitAnd(key[1], 0x0FFF_FFFC),
                        BitAnd(key[2], 0x0FFF_FFFC), BitAnd(key[3], 0x0FFF_FFFC)];
      s := new word[4] [key[4], key[5], key[6], key[7]];
      a := new word[5] [0, 0, 0, 0, 0];
      new;
      ZeroLimbs();
      assert FromArray(a[..]) == Limbs(0, 0, 0, 0, 0);
      assert r[..] == ClampedKey(key[..4]);
      assert s[..] == key[4..];
    }

    /** poly_mul_key */
    method MulKeyStep()
      requires Valid()
      modifies a
      ensures A() == MaskedReduce(MulKey(old(A()), R()))
    {
      hide Val, AddReduced, MulBits, Num4;
      PolyMulAssign(a, r);
      var mask := ReductionReq(FromArray(a[..]));
      PolyMaskedReduce(a, mask);
    }

    /** poly_feed_block */
    method FeedBlock(block: seq<word>)
      requires Valid() && |block| == 4
      modifies a
      ensures A() == FeedSpec(old(A()), R(), Num4(block))
    {
      hide Val, AddReduced, MulBits, Num4;
      PolyAddReduce(a, block);
      MulKeyStep();
    }

    /** poly_finalize: the tag from the low four limbs; the context is wiped. */
    method Finalize() returns (tag: seq<word>)
      requires Valid()
      modifies r, s, a
      ensures |tag| == 4 && Num4(tag) == Mod128(old(A()) + old(S()))
      ensures A() == 0 && R() == 0 && S() == 0
    {
      hide Val, Num4, Mod128;
      ZeroLimbs();
      ZeroNum([0, 0, 0, 0]);
      tag := PolyAdd128(a[..4], s[..]);
      LowLimbs(a[..]);
      Mod128Sum(Num4(a[..4]), a[4], Num4(s[..]));
      forall i | 0 <= i < 4 { r[i] := 0; }
      forall i | 0 <= i < 4 { s[i] := 0; }
      forall i | 0 <= i < 5 { a[i] := 0; }
      assert r[..] == s[..] == [0, 0, 0, 0];
      assert FromArray(a[..]) == Limbs(0, 0, 0, 0, 0);
    }
  }

  function Nums(blocks: seq<seq<word>>): (n: seq<nat>)
    requires forall i :: 0 <= i < |blocks| ==> |blocks[i]| == 4
    ensures |n| == |blocks| && Blocks(n)
    ensures forall i :: 0 <= i < |blocks| ==> n[i] == Num4(blocks[i])
  {
    seq(|blocks|, i requires 0 <= i < |blocks| => Num4(blocks[i]))
  }

  lemma AccOfNone(r: nat, blocks: seq<nat>)
    ensures AccSpec(r, blocks[..0]) == 0
  {
  }

  lemma AccOfNext(r: nat, blocks: seq<nat>, i: nat)
    requires i < |blocks|
    ensures AccSpec(r, blocks[..i + 1]) == FeedSpec(AccSpec(r, blocks[..i]), r, blocks[i])
  {
    hide FeedSpec;
    assert blocks[..i + 1][..i] == blocks[..i];
  }

  /**
   * Init, feed every block, finalize. The tag is the RFC 8439 tag exactly when
   * the product computed for the last block is below 2^130.
   */
  method Authenticate(key: seq<word>, blocks: seq<seq<word>>) returns (tag: seq<word>)
    requires |key| == 8
    requires forall i :: 0 <= i < |blocks| ==> |blocks[i]| == 4
    ensures |tag| == 4
    ensures var r, s := BitAnd(Num4(key[..4]), CLAMP), Num4(key[4..]);
            Num4(tag) == RfcTag(r, s, Nums(blocks)) <==> LastProductSmall(r, Nums(blocks))
  {
    hide Val, Num4, FeedSpec, AccSpec, RfcAcc, RfcTag, BitAnd, Mod128, LastProductSmall, FromArray;
    AccOfNone(BitAnd(Num4(key[..4]), CLAMP), Nums(blocks));
    var ctx := new PolyContext(key);
    ghost var r := ctx.R();
    for i := 0 to |blocks|
      invariant ctx.Valid() && fresh(ctx.r) && fresh(ctx.s) && fresh(ctx.a)
      invariant ctx.R() == r && ctx.S() == Num4(key[4..])
      invariant ctx.A() == AccSpec(r, Nums(blocks)[..i])
    {
      ctx.FeedBlock(blocks[i]);
      AccOfNext(r, Nums(blocks), i);
    }
    assert Nums(blocks)[..|blocks|] == Nums(blocks);
    tag := ctx.Finalize();
    TagExactIff(r, Num4(key[4..]), Nums(blocks));
  }

  // ----- the arithmetic behind it -----

  lemma AddReducedIsSum(x: nat, y: nat) returns (k: nat)
    requires x + y < TWO160 / 2
    ensures k <= 1 && AddReduced(x, y) == x + y - TimesP(k)
  {
    k := if x + y >= TWO130 then 1 else 0;
  }

  /** One addition keeps values at most P + e below P + 2e, or P + 4 when nothing is subtracted. */
  lemma StepBound(prod: nat, acc: nat, e: nat)
    requires 4 <= e <= TWO130
    requires prod <= P + e && acc <= P + e
    ensures AddReduced(prod, acc) <= P + 2 * e
    ensures prod + acc < TWO160 / 2
  {
  }

  lemma {:induction false} Pow2Monotone(m: nat, n: nat)
    requires m <= n
    ensures Pow2(m) <= Pow2(n)
    decreases n
  {
    if m < n {
      Pow2Monotone(m, n - 1);
    }
  }

  lemma SmallPower(i: nat)
    requires i <= 127
    ensures 4 <= Pow2(i + 2) <= TWO130
    ensures Pow2(i + 3) == 2 * Pow2(i + 2)
  {
    Pow2Monotone(i + 2, 129);
    Pow2Monotone(2, i + 2);
    PowersOfTwo();
    assert Pow2(129) == 2 * Pow2(128);
  }

  lemma TimesPAdd(x: int, y: int)
    ensures TimesP(x + y) == TimesP(x) + TimesP(y) && TimesP(0) == 0
  {
  }

  lemma TimesPMul(x: int, y: int)
    ensures TimesP(x) * y == TimesP(x * y)
  {
    assert (P * x) * y == P * (x * y);
  }

  /**
   * Before doubling step i multiplicand and product are at most P + 4 * 2^i. The product
   * stays congruent to the true one and gains only while key bits remain (m of them).
   */
  lemma {:induction false} MulBitsInvariant(prod: nat, acc: nat, key: nat, n: nat, i: nat, m: nat)
      returns (k: int)
    requires i + n <= 128 && m <= n && key < Pow2(m)
    requires prod <= P + Pow2(i + 2) && acc <= P + Pow2(i + 2)
    ensures MulBits(prod, acc, key, n).0 == prod + acc * key - TimesP(k)
    ensures MulBits(prod, acc, key, n).0 <= P + Pow2(i + m + 2)
    decreases n
  {
    hide MulBits, AddReduced, TimesP;
    Doubling(i, m);
    hide Pow2;
    if n == 0 || m == 0 {
      assert key == 0;
      ZeroKey(prod, acc, n);
      TimesPAdd(0, 0);
      k := 0;
    } else {
      SmallPower(i);
      StepBound(prod, acc, Pow2(i + 2));
      StepBound(acc, acc, Pow2(i + 2));
      var kp := AddReducedIsSum(prod, acc);
      var ka := AddReducedIsSum(acc, acc);
      var prod' := if key % 2 == 1 then AddReduced(prod, acc) else prod;
      var acc' := AddReduced(acc, acc);
      MulBitsStep(prod, acc, key, n);
      var k' := MulBitsInvariant(prod', acc', key / 2, n - 1, i + 1, m - 1);
      var q := if key % 2 == 1 then kp else 0;
      TimesPAdd(0, 0);
      k := k' + (q + ka * (key / 2));
      TimesPAdd(k', q + ka * (key / 2));
      Recombine(prod, acc, key, q, ka, prod', acc');
      assert i + 1 + (m - 1) + 2 == i + m + 2;
    }
  }

  lemma Doubling(i: nat, m: nat)
    ensures Pow2(0) == 1 && Pow2(i + 3) == 2 * Pow2(i + 2)
    ensures m > 0 ==> Pow2(m) == 2 * Pow2(m - 1)
  {
  }

  lemma MulBitsStep(prod: nat, acc: nat, key: nat, n: nat)
    requires n > 0
    ensures MulBits(prod, acc, key, n)
         == MulBits(if key % 2 == 1 then AddReduced(prod, acc) else prod, AddReduced(acc, acc), key / 2, n - 1)
  {
  }

  lemma Recombine(prod: int, acc: int, key: nat, q: int, ka: int, prod': int, acc': int)
    requires prod' == prod + (if key % 2 == 1 then acc else 0) - TimesP(q)
    requires acc' == acc + acc - TimesP(ka)
    ensures prod' + acc' * (key / 2) == prod + acc * key - TimesP(q + ka * (key / 2))
  {
    var h := key / 2;
    assert acc' * h == acc * (2 * h) - TimesP(ka) * h;
    TimesPMul(ka, h);
    assert key == 2 * h + key % 2;
    assert acc * key == acc * (2 * h) + acc * (key % 2);
  }

  lemma {:induction false} ZeroKey(prod: nat, acc: nat, n: nat)
    ensures MulBits(prod, acc, 0, n).0 == prod
    decreases n
  {
    if n != 0 {
      ZeroKey(prod, AddReduced(acc, acc), n - 1);
    }
  }

  lemma SameResidue(x: int, y: int, k: int)
    requires x == y - TimesP(k)
    ensures ModP(x) == ModP(y)
  {
  }

  lemma SumResidue(x: int, y: int, r: int)
    requires ModP(x) == ModP(y)
    ensures ModP(x * r) == ModP(y * r)
  {
    var k := y / 0x3_ffff_ffff_ffff_ffff_ffff_ffff_ffff_fffb - x / 0x3_ffff_ffff_ffff_ffff_ffff_ffff_ffff_fffb;
    assert x == y - TimesP(k);
    assert x * r == y * r - TimesP(k) * r;
    TimesPMul(k, r);
    SameResidue(x * r, y * r, k * r);
  }

  const TWO126: int := 0x4000_0000_0000_0000_0000_0000_0000_0000

  /** One block: congruent to (acc + block + 2^128) * r, and back under P + 2^126. */
  lemma FeedCongruent(acc: nat, r: nat, block: nat)
    requires r < Pow2(124) && block < TWO128 && acc <= P + TWO126
    ensures AddReduced(acc, block + TWO128) <= P + 4
    ensures ModP(LastProduct(acc, r, block)) == ModP((acc + block + TWO128) * r)
    ensures LastProduct(acc, r, block) <= P + TWO126
  {
    PowersOfTwo();
    assert Pow2(126) == 4 * Pow2(124) == TWO126;
    var sum := AddReduced(acc, block + TWO128);
    var ks := AddReducedIsSum(acc, block + TWO128);
    var k := MulBitsInvariant(0, sum, r, 128, 0, 124);
    var total := acc + block + TWO128;
    SameResidue(LastProduct(acc, r, block), sum * r, k);
    SameResidue(sum, total, ks);
    SumResidue(sum, total, r);
  }

  lemma MaskedReduceResidue(n: nat)
    requires n <= P + TWO126
    ensures ModP(MaskedReduce(n)) == ModP(n)
    ensures MaskedReduce(n) <= P + TWO126
    ensures n < TWO130 <==> MaskedReduce(n) < P
    ensures MaskedReduce(n) == ModP(n) || MaskedReduce(n) == ModP(n) + P
  {
  }

  /**
   * For every clamped key and every sequence of blocks, the stored accumulator is
   * congruent to the RFC 8439 accumulator and at most P + 2^126, and it is the
   * fully reduced value exactly when the last product was below 2^130.
   */
  lemma {:induction false} AccumulatorInvariant(r: nat, blocks: seq<nat>)
    requires r < Pow2(124) && Blocks(blocks)
    ensures ModP(AccSpec(r, blocks)) == RfcAcc(r, blocks)
    ensures AccSpec(r, blocks) <= P + TWO126
    ensures AccSpec(r, blocks) == RfcAcc(r, blocks) <==> LastProductSmall(r, blocks)
    ensures AccSpec(r, blocks) == RfcAcc(r, blocks) || AccSpec(r, blocks) == RfcAcc(r, blocks) + P
  {
    hide FeedSpec, LastProduct, ModP, MulKey;
    SmallResidue(0);
    if blocks != [] {
      var front, block := blocks[..|blocks| - 1], blocks[|blocks| - 1];
      AccumulatorInvariant(r, front);
      var acc := AccSpec(r, front);
      FeedCongruent(acc, r, block);
      MaskedReduceResidue(LastProduct(acc, r, block));
      FeedIsMaskedProduct(acc, r, block);
      AddendResidue(acc, RfcAcc(r, front), block + TWO128);
      SumResidue(acc + block + TWO128, RfcAcc(r, front) + block + TWO128, r);
    }
  }

  lemma FeedIsMaskedProduct(acc: nat, r: nat, block: nat)
    ensures FeedSpec(acc, r, block) == MaskedReduce(LastProduct(acc, r, block))
  {
  }

  lemma SmallResidue(x: nat)
    requires x < P
    ensures ModP(x) == x
  {
  }

  lemma AddendResidue(x: nat, y: nat, d: nat)
    requires ModP(x) == y
    ensures ModP(x + d) == ModP(y + d)
  {
  }

  lemma PIsVisible(acc: nat, exact: nat, s: nat)
    requires acc == exact || acc == exact + P
    ensures Mod128(acc + s) == Mod128(exact + s) <==> acc == exact
  {
  }

  /** The tag the code forms is the RFC 8439 tag if and only if the last product was below 2^130. */
  lemma TagExactIff(r: nat, s: nat, blocks: seq<nat>)
    requires r < Pow2(124) && s < TWO128 && Blocks(blocks)
    ensures Mod128(AccSpec(r, blocks) + s) == RfcTag(r, s, blocks) <==> LastProductSmall(r, blocks)
  {
    hide AccSpec, RfcAcc, Mod128, LastProductSmall;
    AccumulatorInvariant(r, blocks);
    PIsVisible(AccSpec(r, blocks), RfcAcc(r, blocks), s);
  }

  /** A first block of all ones with r = 6 is not reduced: the code's tag and the RFC tag differ. */
  lemma LazyReductionVisible()
    ensures AccSpec(6, [TWO128 - 1]) == P + 9 && RfcAcc(6, [TWO128 - 1]) == 9
    ensures Mod128(AccSpec(6, [TWO128 - 1])) != RfcTag(6, 0, [TWO128 - 1])
  {
    var blocks := [TWO128 - 1];
    assert blocks[..0] == [];
    AllOnesTimesSix();
    assert AccSpec(6, blocks) == FeedSpec(0, 6, TWO128 - 1);
    assert RfcAcc(6, blocks) == ModP((0 + TWO128 - 1 + TWO128) * 6);
  }

  lemma AllOnesTimesSix()
    ensures LastProduct(0, 6, TWO128 - 1) == P + 9
  {
    var a0 := AddReduced(0, TWO128 - 1 + TWO128);
    var a1 := AddReduced(a0, a0);
    var a2 := AddReduced(a1, a1);
    assert a0 == 2 * TWO128 - 1 && a1 == TWO130 - 2 && a2 == TWO130 + 1;
    assert AddReduced(0, a1) == a1 && AddReduced(a1, a2) == P + 9;
    SixBits(a0, 125);
    ZeroKey(P + 9, AddReduced(a2, a2), 125);
  }

  lemma SixBits(a0: nat, n: nat)
    ensures var a1 := AddReduced(a0, a0); var a2 := AddReduced(a1, a1);
            MulBits(0, a0, 6, n + 3) == MulBits(AddReduced(AddReduced(0, a1), a2), AddReduced(a2, a2), 0, n)
  {
    var a1 := AddReduced(a0, a0);
    var a2 := AddReduced(a1, a1);
    assert MulBits(0, a0, 6, n + 3) == MulBits(0, a1, 3, n + 2);
    assert MulBits(0, a1, 3, n + 2) == MulBits(AddReduced(0, a1), a2, 1, n + 1);
  }
}
