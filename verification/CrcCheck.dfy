// Which CRC it is: the residue every message leaves, and the check value of the standard.
module CrcCheck {
  import opened Bytes
  import opened Bitwise
  import opened Checksum

  // ----- the register, digit by digit -----

  /** A hexadecimal digit, most significant bit first. */
  datatype Nib = Nib(b3: bool, b2: bool, b1: bool, b0: bool)

  /** A word of eight digits, as it is written. */
  datatype Word = Word(n7: Nib, n6: Nib, n5: Nib, n4: Nib, n3: Nib, n2: Nib, n1: Nib, n0: Nib)

  const X0 := Nib(false, false, false, false)
  const X1 := Nib(false, false, false, true)
  const X2 := Nib(false, false, true, false)
  const X3 := Nib(false, false, true, true)
  const X4 := Nib(false, true, false, false)
  const X5 := Nib(false, true, false, true)
  const X6 := Nib(false, true, true, false)
  const X7 := Nib(false, true, true, true)
  const X8 := Nib(true, false, false, false)
  const X9 := Nib(true, false, false, true)
  const XA := Nib(true, false, true, false)
  const XB := Nib(true, false, true, true)
  const XC := Nib(true, true, false, false)
  const XD := Nib(true, true, false, true)
  const XE := Nib(true, true, true, false)
  const XF := Nib(true, true, true, true)

  /** One more bit in front. */
  function PutBit(b: bool, x: nat): nat {
    (if b then 1 else 0) + 2 * x
  }

  function PutNib(n: Nib, x: nat): nat {
    PutBit(n.b0, PutBit(n.b1, PutBit(n.b2, PutBit(n.b3, x))))
  }

  /** The number a word stands for. */
  function Val(w: Word): nat {
    PutNib(w.n0, PutNib(w.n1, PutNib(w.n2, PutNib(w.n3, PutNib(w.n4, PutNib(w.n5, PutNib(w.n6, PutNib(w.n7, 0))))))))
  }

  // ----- exclusive or -----

  function XorNib(a: Nib, b: Nib): Nib {
    Nib(a.b3 != b.b3, a.b2 != b.b2, a.b1 != b.b1, a.b0 != b.b0)
  }

  function XorWord(a: Word, b: Word): Word {
    Word(XorNib(a.n7, b.n7), XorNib(a.n6, b.n6), XorNib(a.n5, b.n5), XorNib(a.n4, b.n4),
         XorNib(a.n3, b.n3), XorNib(a.n2, b.n2), XorNib(a.n1, b.n1), XorNib(a.n0, b.n0))
  }

  lemma BitXor(p: bool, q: bool, x: nat, y: nat)
    ensures Xor(PutBit(p, x), PutBit(q, y)) == PutBit(p != q, Xor(x, y))
  {
    HalfBit(p, x);
    HalfBit(q, y);
    SumBit(p, q, x, y);
    XorHalves(PutBit(p, x), PutBit(q, y), x, y, p != q);
  }

  lemma HalfBit(b: bool, x: nat)
    ensures PutBit(b, x) / 2 == x && (PutBit(b, x) % 2 != 0 <==> b)
  {
  }

  lemma SumBit(p: bool, q: bool, x: nat, y: nat)
    ensures (PutBit(p, x) + PutBit(q, y)) % 2 != 0 <==> p != q
  {
  }

  lemma XorHalves(a: nat, b: nat, x: nat, y: nat, r: bool)
    requires a / 2 == x && b / 2 == y && ((a + b) % 2 != 0 <==> r)
    ensures Xor(a, b) == PutBit(r, Xor(x, y))
  {
    XorBits(a, b);
    FromHalf(Xor(a, b), r, Xor(x, y));
  }

  lemma FromHalf(v: nat, b: bool, h: nat)
    requires v / 2 == h && (v % 2 != 0 <==> b)
    ensures v == PutBit(b, h)
  {
  }

  lemma NibXor(a: Nib, b: Nib, x: nat, y: nat)
    ensures Xor(PutNib(a, x), PutNib(b, y)) == PutNib(XorNib(a, b), Xor(x, y))
  {
    var x3, y3 := PutBit(a.b3, x), PutBit(b.b3, y);
    var x2, y2 := PutBit(a.b2, x3), PutBit(b.b2, y3);
    BitXor(a.b3, b.b3, x, y);
    BitXor(a.b2, b.b2, x3, y3);
    BitXor(a.b1, b.b1, x2, y2);
    BitXor(a.b0, b.b0, PutBit(a.b1, x2), PutBit(b.b1, y2));
  }

  lemma ValXor(a: Word, b: Word)
    ensures Val(XorWord(a, b)) == Xor(Val(a), Val(b))
  {
    NibXor(a.n7, b.n7, 0, 0);
    var x7, y7 := PutNib(a.n7, 0), PutNib(b.n7, 0);
    NibXor(a.n6, b.n6, x7, y7);
    var x6, y6 := PutNib(a.n6, x7), PutNib(b.n6, y7);
    NibXor(a.n5, b.n5, x6, y6);
    var x5, y5 := PutNib(a.n5, x6), PutNib(b.n5, y6);
    NibXor(a.n4, b.n4, x5, y5);
    var x4, y4 := PutNib(a.n4, x5), PutNib(b.n4, y5);
    NibXor(a.n3, b.n3, x4, y4);
    var x3, y3 := PutNib(a.n3, x4), PutNib(b.n3, y4);
    NibXor(a.n2, b.n2, x3, y3);
    var x2, y2 := PutNib(a.n2, x3), PutNib(b.n2, y3);
    NibXor(a.n1, b.n1, x2, y2);
    NibXor(a.n0, b.n0, PutNib(a.n1, x2), PutNib(b.n1, y2));
  }

  // ----- the steps -----

  function ShiftNib(carry: bool, n: Nib): Nib {
    Nib(carry, n.b3, n.b2, n.b1)
  }

  function Shift(w: Word): Word {
    Word(ShiftNib(false, w.n7), ShiftNib(w.n7.b0, w.n6), ShiftNib(w.n6.b0, w.n5), ShiftNib(w.n5.b0, w.n4),
         ShiftNib(w.n4.b0, w.n3), ShiftNib(w.n3.b0, w.n2), ShiftNib(w.n2.b0, w.n1), ShiftNib(w.n1.b0, w.n0))
  }

  lemma ShiftPut(carry: bool, n: Nib, x: nat)
    ensures PutBit(n.b0, PutNib(ShiftNib(carry, n), x)) == PutNib(n, PutBit(carry, x))
  {
  }

  lemma ShiftVal(w: Word)
    ensures Val(w) == PutBit(w.n0.b0, Val(Shift(w)))
  {
    var s7 := PutNib(ShiftNib(false, w.n7), 0);
    var s6 := PutNib(ShiftNib(w.n7.b0, w.n6), s7);
    var s5 := PutNib(ShiftNib(w.n6.b0, w.n5), s6);
    var s4 := PutNib(ShiftNib(w.n5.b0, w.n4), s5);
    var s3 := PutNib(ShiftNib(w.n4.b0, w.n3), s4);
    var s2 := PutNib(ShiftNib(w.n3.b0, w.n2), s3);
    var s1 := PutNib(ShiftNib(w.n2.b0, w.n1), s2);
    assert PutBit(false, 0) == 0;
    ShiftPut(false, w.n7, 0);
    ShiftPut(w.n7.b0, w.n6, s7);
    ShiftPut(w.n6.b0, w.n5, s6);
    ShiftPut(w.n5.b0, w.n4, s5);
    ShiftPut(w.n4.b0, w.n3, s4);
    ShiftPut(w.n3.b0, w.n2, s3);
    ShiftPut(w.n2.b0, w.n1, s2);
    ShiftPut(w.n1.b0, w.n0, s1);
  }

  const WORD_POLY := Word(XE, XD, XB, X8, X8, X3, X2, X0)

  function WordStep(w: Word): Word {
    if w.n0.b0 then XorWord(Shift(w), WORD_POLY) else Shift(w)
  }

  function ByteSteps(w: Word): Word {
    WordStep(WordStep(WordStep(WordStep(WordStep(WordStep(WordStep(WordStep(w))))))))
  }

  lemma PolyVal()
    ensures Val(WORD_POLY) == POLY
  {
  }

  lemma StepVal(w: Word)
    ensures BitStep(Val(w)) == Val(WordStep(w))
  {
    ShiftVal(w);
    HalfBit(w.n0.b0, Val(Shift(w)));
    ValXor(Shift(w), WORD_POLY);
    PolyVal();
  }

  lemma FourVal(w: Word)
    ensures Steps(Val(w), 4) == Val(WordStep(WordStep(WordStep(WordStep(w)))))
  {
    var w1 := WordStep(w);
    var w2 := WordStep(w1);
    var w3 := WordStep(w2);
    StepVal(w);
    StepVal(w1);
    StepVal(w2);
    StepVal(w3);
    assert Steps(Val(w), 4) == Steps(Val(w1), 3) == Steps(Val(w2), 2) == Steps(Val(w3), 1);
  }

  lemma ByteVal(w: Word, v: Word)
    requires ByteSteps(w) == v
    ensures Steps(Val(w), 8) == Val(v)
  {
    var w4 := WordStep(WordStep(WordStep(WordStep(w))));
    FourVal(w);
    FourVal(w4);
    StepsAdd(Val(w), 4, 4);
  }

  // ----- the residue -----

  const RESIDUE: nat := 0xDEBB_20E3

  // The register while the bits of ONES are shifted out, byte by byte.
  const S0 := Word(XF, XF, XF, XF, XF, XF, XF, XF)
  const S1 := Word(X2, XD, XF, XD, X1, X0, X7, X2)
  const S2 := Word(XB, XE, X2, X6, XE, XD, X0, X0)
  const S3 := Word(X0, X0, XB, XE, X2, X6, XE, XD)
  const S4 := Word(XD, XE, XB, XB, X2, X0, XE, X3)

  lemma OnesBytes()
    ensures ByteSteps(S0) == S1 && ByteSteps(S1) == S2 && ByteSteps(S2) == S3 && ByteSteps(S3) == S4
  {
  }

  lemma OnesVal()
    ensures Val(S0) == ONES
  {
  }

  lemma ResidueVal()
    ensures Val(S4) == RESIDUE
  {
  }

  lemma WordSteps(w0: Word, w1: Word, w2: Word, w3: Word, w4: Word)
    requires ByteSteps(w0) == w1 && ByteSteps(w1) == w2 && ByteSteps(w2) == w3 && ByteSteps(w3) == w4
    ensures Steps(Val(w0), 32) == Val(w4)
  {
    ByteVal(w0, w1);
    ByteVal(w1, w2);
    ByteVal(w2, w3);
    ByteVal(w3, w4);
    FourTimes(Val(w0), Val(w1), Val(w2), Val(w3), Val(w4));
  }

  lemma FourTimes(c0: nat, c1: nat, c2: nat, c3: nat, c4: nat)
    requires Steps(c0, 8) == c1 && Steps(c1, 8) == c2 && Steps(c2, 8) == c3 && Steps(c3, 8) == c4
    ensures Steps(c0, 32) == c4
  {
    StepsAdd(c0, 8, 24);
    StepsAdd(c1, 8, 16);
    StepsAdd(c2, 8, 8);
  }

  lemma OnesSteps()
    ensures Steps(ONES, 32) == RESIDUE
  {
    OnesBytes();
    OnesVal();
    ResidueVal();
    WordSteps(S0, S1, S2, S3, S4);
  }

  // A message with its checksum behind it leaves the same register, whatever the message.
  lemma Residue(data: seq<byte>)
    ensures FeedAll(ONES, MessageBits(data + Le32(Crc(data)))) == RESIDUE
  {
    var r, crc := FeedAll(ONES, MessageBits(data)), Crc(data);
    CrcBound(data);
    WordBack(crc);
    var tail := Le32(crc);
    MessageConcat(data, tail);
    FeedConcat(ONES, MessageBits(data), MessageBits(tail));
    SelfFed(r, tail);
  }

  lemma WordBack(x: nat)
    requires x <= ONES
    ensures |Le32(x)| == 4 && U32(Le32(x), 0) == x
  {
  }

  lemma SelfFed(r: nat, tail: seq<byte>)
    requires |tail| == 4 && U32(tail, 0) == Xor(r, ONES)
    ensures FeedAll(r, MessageBits(tail)) == RESIDUE
  {
    FeedBytes(r, tail);
    WordValue(tail);
    XorAssoc(r, r, ONES);
    XorSelf(r);
    OnesSteps();
  }

  // ----- the check value -----

  /** The string "123456789". */
  const DIGITS: seq<byte> := [0x31, 0x32, 0x33, 0x34, 0x35, 0x36, 0x37, 0x38, 0x39]

  /** The register after the first `i` bytes of the string. */
  ghost predicate Register(i: nat, w: Word) {
    i <= |DIGITS| && FeedAll(ONES, MessageBits(DIGITS[..i])) == Val(w)
  }

  lemma FeedDigit(i: nat, w: Word, d: Word, v: Word)
    requires i < |DIGITS| && Register(i, w) && Val(d) == DIGITS[i] as nat && ByteSteps(XorWord(w, d)) == v
    ensures Register(i + 1, v)
  {
    ValBound(w);
    FeedNext(i, Val(w));
    ValXor(w, d);
    ByteVal(XorWord(w, d), v);
  }

  lemma FeedNext(i: nat, c: nat)
    requires i < |DIGITS| && FeedAll(ONES, MessageBits(DIGITS[..i])) == c <= ONES
    ensures FeedAll(ONES, MessageBits(DIGITS[..i + 1])) == Steps(Xor(c, DIGITS[i]), 8)
  {
    FeedMore(c, DIGITS, i, 1);
    FedByte(c, DIGITS[i..i + 1]);
  }

  lemma NibBound(n: Nib, x: nat, m: nat)
    requires x < m
    ensures PutNib(n, x) < 16 * m
  {
  }

  lemma ValBound(w: Word)
    ensures Val(w) <= ONES
  {
    var v7 := PutNib(w.n7, 0);
    var v6 := PutNib(w.n6, v7);
    var v5 := PutNib(w.n5, v6);
    var v4 := PutNib(w.n4, v5);
    var v3 := PutNib(w.n3, v4);
    var v2 := PutNib(w.n2, v3);
    var v1 := PutNib(w.n1, v2);
    NibBound(w.n7, 0, 1);
    NibBound(w.n6, v7, 0x10);
    NibBound(w.n5, v6, 0x100);
    NibBound(w.n4, v5, 0x1000);
    NibBound(w.n3, v4, 0x1_0000);
    NibBound(w.n2, v3, 0x10_0000);
    NibBound(w.n1, v2, 0x100_0000);
    NibBound(w.n0, v1, 0x1000_0000);
  }

  lemma FeedThree(i: nat, w0: Word, d0: Word, w1: Word, d1: Word, w2: Word, d2: Word, w3: Word)
    requires i + 3 <= |DIGITS| && Register(i, w0)
    requires Val(d0) == DIGITS[i] as nat && Val(d1) == DIGITS[i + 1] as nat && Val(d2) == DIGITS[i + 2] as nat
    requires ByteSteps(XorWord(w0, d0)) == w1 && ByteSteps(XorWord(w1, d1)) == w2 && ByteSteps(XorWord(w2, d2)) == w3
    ensures Register(i + 3, w3)
  {
    FeedDigit(i, w0, d0, w1);
    FeedDigit(i + 1, w1, d1, w2);
    FeedDigit(i + 2, w2, d2, w3);
  }

  const D1 := Word(X0, X0, X0, X0, X0, X0, X3, X1)
  const D2 := Word(X0, X0, X0, X0, X0, X0, X3, X2)
  const D3 := Word(X0, X0, X0, X0, X0, X0, X3, X3)
  const D4 := Word(X0, X0, X0, X0, X0, X0, X3, X4)
  const D5 := Word(X0, X0, X0, X0, X0, X0, X3, X5)
  const D6 := Word(X0, X0, X0, X0, X0, X0, X3, X6)
  const D7 := Word(X0, X0, X0, X0, X0, X0, X3, X7)
  const D8 := Word(X0, X0, X0, X0, X0, X0, X3, X8)
  const D9 := Word(X0, X0, X0, X0, X0, X0, X3, X9)

  // The register after each of the nine bytes.
  const R1 := Word(X7, XC, X2, X3, X1, X0, X4, X8)
  const R2 := Word(XB, X0, XA, XC, XB, XB, X3, X2)
  const R3 := Word(X7, X7, XB, X7, X9, XC, X2, XD)
  const R4 := Word(X6, X4, X1, XC, X1, XF, X5, XC)
  const R5 := Word(X3, X4, X0, XA, XC, X5, XE, X3)
  const R6 := Word(XF, X6, X8, XD, X2, XC, X9, XE)
  const R7 := Word(XA, XF, XF, XC, X9, X6, X6, X0)
  const R8 := Word(X6, X5, X1, XF, X2, X5, X5, X0)
  const R9 := Word(X3, X4, X0, XB, XC, X6, XD, X9)

  lemma FirstBytes()
    ensures ByteSteps(XorWord(S0, D1)) == R1 && ByteSteps(XorWord(R1, D2)) == R2
    ensures ByteSteps(XorWord(R2, D3)) == R3
  {
  }

  lemma MiddleBytes()
    ensures ByteSteps(XorWord(R3, D4)) == R4 && ByteSteps(XorWord(R4, D5)) == R5
    ensures ByteSteps(XorWord(R5, D6)) == R6
  {
  }

  lemma FinalBytes()
    ensures ByteSteps(XorWord(R6, D7)) == R7 && ByteSteps(XorWord(R7, D8)) == R8
    ensures ByteSteps(XorWord(R8, D9)) == R9
  {
  }

  lemma DigitVals()
    ensures Val(D1) == 0x31 && Val(D2) == 0x32 && Val(D3) == 0x33 && Val(D4) == 0x34 && Val(D5) == 0x35
    ensures Val(D6) == 0x36 && Val(D7) == 0x37 && Val(D8) == 0x38 && Val(D9) == 0x39
  {
  }

  lemma FirstDigits()
    ensures Val(D1) == DIGITS[0] as nat && Val(D2) == DIGITS[1] as nat && Val(D3) == DIGITS[2] as nat
  {
    DigitVals();
  }

  lemma FirstThree()
    requires Register(0, S0)
    ensures Register(3, R3)
  {
    FirstBytes();
    FirstDigits();
    FeedThree(0, S0, D1, R1, D2, R2, D3, R3);
  }

  lemma MiddleDigits()
    ensures Val(D4) == DIGITS[3] as nat && Val(D5) == DIGITS[4] as nat && Val(D6) == DIGITS[5] as nat
  {
    DigitVals();
  }

  lemma MiddleThree()
    requires Register(3, R3)
    ensures Register(6, R6)
  {
    MiddleBytes();
    MiddleDigits();
    FeedThree(3, R3, D4, R4, D5, R5, D6, R6);
  }

  lemma FinalDigits()
    ensures Val(D7) == DIGITS[6] as nat && Val(D8) == DIGITS[7] as nat && Val(D9) == DIGITS[8] as nat
  {
    DigitVals();
  }

  lemma FinalThree()
    requires Register(6, R6)
    ensures Register(9, R9)
  {
    FinalBytes();
    FinalDigits();
    FeedThree(6, R6, D7, R7, D8, R8, D9, R9);
  }

  const CHECK := Word(XC, XB, XF, X4, X3, X9, X2, X6)

  lemma CheckVal()
    ensures Val(CHECK) == 0xCBF4_3926
  {
  }

  lemma CheckXor()
    ensures XorWord(R9, S0) == CHECK
  {
  }

  // "123456789" has the checksum the standard gives for it.
  lemma CheckValue()
    ensures Crc(DIGITS) == 0xCBF4_3926
  {
    OnesVal();
    assert DIGITS[..0] == [] && DIGITS[..9] == DIGITS;
    FirstThree();
    MiddleThree();
    FinalThree();
    CheckXor();
    CheckVal();
    ValXor(R9, S0);
  }
}
