// CRC-32 (section 8 of RFC 1952: reflected, polynomial 0xEDB88320).
//
// `Crc` is the definition: one message bit at a time.  `Crc32` is the
// slicing-by-4 loop with its four tables, proved to compute the same value.
module Checksum {
  import opened Bytes
  import opened Bitwise

  const POLY: nat := 0xEDB8_8320
  const ONES: nat := 0xFFFF_FFFF

  // ----- the definition -----

  function Tap(c: nat, bit: bool, poly: nat): nat {
    if bit then Xor(c, poly) else c
  }

  /** Shift right; a one that falls out xors in the polynomial. */
  function BitStep(c: nat): nat {
    Tap(c / 2, c % 2 != 0, POLY)
  }

  /** Feed one message bit into the register. */
  function Feed(c: nat, bit: nat): nat {
    BitStep(Xor(c, bit))
  }

  /** The low `n` bits of `w`, least significant first. */
  function Bits(w: nat, n: nat): (bs: seq<nat>)
    ensures |bs| == n
    decreases n
  {
    if n == 0 then [] else [w % 2] + Bits(w / 2, n - 1)
  }

  function MessageBits(data: seq<byte>): seq<nat> {
    if data == [] then [] else Bits(data[0], 8) + MessageBits(data[1..])
  }

  function FeedAll(c: nat, bits: seq<nat>): nat
    decreases bits
  {
    if bits == [] then c else FeedAll(Feed(c, bits[0]), bits[1..])
  }

  function Crc(data: seq<byte>): nat {
    Xor(FeedAll(ONES, MessageBits(data)), ONES)
  }

  // ----- the register is linear and reversible -----

  function Steps(c: nat, n: nat): nat
    decreases n
  {
    if n == 0 then c else Steps(BitStep(c), n - 1)
  }

  lemma BitStepXor(a: nat, b: nat)
    ensures BitStep(Xor(a, b)) == Xor(BitStep(a), BitStep(b))
  {
    XorBits(a, b);
    Parity(a, b, Xor(a, b));
    TapXor(a / 2, b / 2, a % 2 != 0, b % 2 != 0, POLY);
  }

  lemma Parity(a: nat, b: nat, ab: nat)
    requires ab % 2 == (a + b) % 2
    ensures (ab % 2 != 0) == ((a % 2 != 0) != (b % 2 != 0))
  {
  }

  lemma TapXor(x: nat, y: nat, p: bool, q: bool, poly: nat)
    ensures Tap(Xor(x, y), p != q, poly) == Xor(Tap(x, p, poly), Tap(y, q, poly))
  {
    XorMix(x, y, poly);
  }

  lemma XorMix(x: nat, y: nat, p: nat)
    ensures Xor(Xor(x, p), Xor(y, p)) == Xor(x, y)
    ensures Xor(Xor(x, p), y) == Xor(Xor(x, y), p) == Xor(x, Xor(y, p))
  {
    XorSwap(x, p, y, p);
    XorSelf(p);
    XorAssoc(x, y, p);
    XorComm(y, p);
    XorAssoc(x, p, y);
  }

  lemma {:induction false} StepsXor(a: nat, b: nat, n: nat)
    ensures Steps(Xor(a, b), n) == Xor(Steps(a, n), Steps(b, n))
    decreases n
  {
    if n > 0 {
      BitStepXor(a, b);
      StepsXor(BitStep(a), BitStep(b), n - 1);
    }
  }

  lemma {:induction false} StepsAdd(c: nat, m: nat, n: nat)
    ensures Steps(c, m + n) == Steps(Steps(c, m), n)
    decreases m
  {
    if m > 0 {
      StepsAdd(BitStep(c), m - 1, n);
    }
  }

  lemma PowersOfTwo()
    ensures Pow2(8) == 256 && Pow2(24) == 0x100_0000 && Pow2(31) == 0x8000_0000 && Pow2(32) == 0x1_0000_0000
  {
    assert Pow2(12) == 4096;
    assert Pow2(20) == 0x10_0000;
    assert Pow2(28) == 0x1000_0000;
  }

  lemma BitStepBound(c: nat)
    requires c <= ONES
    ensures BitStep(c) <= ONES
  {
    PowersOfTwo();
    if c % 2 != 0 { XorBound(c / 2, POLY, 32); }
  }

  // The top bit of the result tells which branch was taken, so a step loses nothing.
  lemma BitStepInjective(a: nat, b: nat)
    requires a <= ONES && b <= ONES && BitStep(a) == BitStep(b)
    ensures a == b
  {
    PowersOfTwo();
    if a % 2 == b % 2 {
      if a % 2 != 0 { XorCancel(a / 2, b / 2, POLY); }
    } else {
      XorHighBit(if a % 2 != 0 then a / 2 else b / 2, POLY, 31);
    }
  }

  lemma {:induction false} StepsInjective(a: nat, b: nat, n: nat)
    requires a <= ONES && b <= ONES && Steps(a, n) == Steps(b, n)
    ensures a == b
    decreases n
  {
    if n > 0 {
      BitStepBound(a);
      BitStepBound(b);
      StepsInjective(BitStep(a), BitStep(b), n - 1);
      BitStepInjective(a, b);
    }
  }

  // ----- message bits may be xored in ahead of time -----

  lemma FeedOne(c: nat, w: nat)
    ensures BitStep(Xor(c, w)) == Xor(Feed(c, w % 2), w / 2)
  {
    XorBits(c, w);
    XorBit(c, w % 2);
    SameParity(c, w);
    TapBoth(Xor(c, w), Xor(c, w % 2), c / 2, w / 2);
  }

  lemma XorBit(c: nat, b: nat)
    requires b < 2
    ensures Xor(c, b) / 2 == c / 2 && Xor(c, b) % 2 == (c + b) % 2
  {
    XorBits(c, b);
    XorComm(c / 2, 0);
  }

  lemma SameParity(c: nat, w: nat)
    ensures (c + w) % 2 == (c + w % 2) % 2
  {
  }

  lemma TapBoth(cw: nat, cb: nat, x: nat, y: nat)
    requires cw / 2 == Xor(x, y) && cb / 2 == x && cw % 2 == cb % 2
    ensures BitStep(cw) == Xor(BitStep(cb), y)
  {
    TapXor(x, y, cw % 2 != 0, false, POLY);
  }

  lemma {:induction false} FeedWord(c: nat, w: nat, n: nat)
    ensures Xor(FeedAll(c, Bits(w, n)), Shr(w, n)) == Steps(Xor(c, w), n)
    decreases n
  {
    if n > 0 {
      FeedOne(c, w);
      FeedWord(Feed(c, w % 2), w / 2, n - 1);
      assert Bits(w, n)[1..] == Bits(w / 2, n - 1);
    }
  }

  lemma FeedBits(c: nat, w: nat, n: nat)
    requires w < Pow2(n)
    ensures FeedAll(c, Bits(w, n)) == Steps(Xor(c, w), n)
  {
    FeedWord(c, w, n);
    ShrAll(w, n);
    XorComm(FeedAll(c, Bits(w, n)), 0);
  }

  lemma {:induction false} FeedConcat(c: nat, a: seq<nat>, b: seq<nat>)
    ensures FeedAll(c, a + b) == FeedAll(FeedAll(c, a), b)
    decreases a
  {
    if a == [] {
      assert a + b == b;
    } else {
      assert (a + b)[1..] == a[1..] + b;
      FeedConcat(Feed(c, a[0]), a[1..], b);
    }
  }

  lemma {:induction false} MessageConcat(a: seq<byte>, b: seq<byte>)
    ensures MessageBits(a + b) == MessageBits(a) + MessageBits(b)
  {
    if a == [] {
      assert a + b == b;
    } else {
      assert (a + b)[1..] == a[1..] + b;
      MessageConcat(a[1..], b);
    }
  }

  // ----- bytes and words -----

  // n steps consume the low n bits and shift the rest down.
  lemma {:induction false} StepsLow(c: nat, n: nat)
    ensures Steps(c, n) == Xor(Shr(c, n), Steps(Low(c, n), n))
    decreases n
  {
    if n > 0 {
      var h, l, t := c / 2, Low(c / 2, n - 1), BitStep(c % 2);
      calc {
        Steps(c, n);
        { HalfBit(c); }
        Steps(Xor(h, t), n - 1);
        { StepsXor(h, t, n - 1); }
        Xor(Steps(h, n - 1), Steps(t, n - 1));
        { StepsLow(h, n - 1); }
        Xor(Xor(Shr(h, n - 1), Steps(l, n - 1)), Steps(t, n - 1));
        { XorAssoc(Shr(h, n - 1), Steps(l, n - 1), Steps(t, n - 1)); }
        Xor(Shr(h, n - 1), Xor(Steps(l, n - 1), Steps(t, n - 1)));
        { StepsXor(l, t, n - 1); }
        Xor(Shr(h, n - 1), Steps(Xor(l, t), n - 1));
        { HalfBit(Low(c, n)); assert Low(c, n) / 2 == l && Low(c, n) % 2 == c % 2; }
        Xor(Shr(c, n), Steps(Low(c, n), n));
      }
    }
  }

  lemma HalfBit(c: nat)
    ensures BitStep(c) == Xor(c / 2, BitStep(c % 2))
  {
    XorComm(c / 2, 0);
  }

  /** A byte string as one little-endian number. */
  function LeValue(data: seq<byte>): nat {
    if data == [] then 0 else data[0] as int + 256 * LeValue(data[1..])
  }

  // Feeding a whole byte string is xoring in its number and stepping once per bit.
  lemma {:induction false} LeBits(data: seq<byte>)
    ensures MessageBits(data) == Bits(LeValue(data), 8 * |data|)
    ensures LeValue(data) < Pow2(8 * |data|)
  {
    if data != [] {
      LeBits(data[1..]);
      ByteWidth();
      LeStep(LeValue(data), data[0], LeValue(data[1..]), 8, 8 * |data[1..]|, 8 * |data|);
    }
  }

  lemma ByteWidth()
    ensures Pow2(8) == 256
  {
  }

  lemma LeStep(x: nat, b: byte, v: nat, w: nat, n: nat, all: nat)
    requires x == b + 256 * v && Pow2(w) == 256 && v < Pow2(n) && all == w + n
    ensures Bits(x, all) == Bits(b, w) + Bits(v, n) && x < Pow2(all)
  {
    BitsConcat(x, b, v, w, n, all);
    LeBound(x, b, v, w, n, all);
  }

  lemma LeBound(x: nat, b: byte, v: nat, w: nat, n: nat, all: nat)
    requires x == b + 256 * v && Pow2(w) == 256 && v < Pow2(n) && all == w + n
    ensures x < Pow2(all)
  {
    PowAdd(w, n);
    OneByteMore(b, v, Pow2(n));
  }

  lemma OneByteMore(b: byte, v: nat, p: nat)
    requires v < p
    ensures b + 256 * v < 256 * p
  {
  }

  lemma {:induction false} PowAdd(m: nat, n: nat)
    ensures Pow2(m + n) == Pow2(m) * Pow2(n)
  {
    if m > 0 {
      PowAdd(m - 1, n);
    }
  }

  lemma FeedBytes(c: nat, data: seq<byte>)
    ensures FeedAll(c, MessageBits(data)) == Steps(Xor(c, LeValue(data)), 8 * |data|)
  {
    LeBits(data);
    FeedBits(c, LeValue(data), 8 * |data|);
  }

  lemma {:induction false} BitsConcat(x: nat, lo: nat, hi: nat, m: nat, n: nat, all: nat)
    requires lo < Pow2(m) && x == lo + Pow2(m) * hi && all == m + n
    ensures Bits(x, all) == Bits(lo, m) + Bits(hi, n)
    decreases m
  {
    if m == 0 {
      assert Bits(lo, m) + Bits(hi, n) == Bits(hi, n);
    } else {
      var p := Pow2(m - 1);
      assert Pow2(m) * hi == 2 * (p * hi);
      assert x % 2 == lo % 2 && x / 2 == lo / 2 + p * hi;
      BitsConcat(x / 2, lo / 2, hi, m - 1, n, all - 1);
      assert ([lo % 2] + Bits(lo / 2, m - 1)) + Bits(hi, n) == [lo % 2] + (Bits(lo / 2, m - 1) + Bits(hi, n));
    }
  }

  // ----- the tables -----

  /** Table `t` at index `i`: the register after `8 * (t + 1)` steps from `i`. */
  function Entry(t: nat, i: nat): nat {
    Steps(i, 8 * (t + 1))
  }

  lemma StepsByte(c: nat)
    ensures Steps(c, 8) == Xor(c / 256, Entry(0, c % 256))
  {
    ByteShift(c);
    StepsLow(c, 8);
  }

  // How each table is computed from the one before.
  lemma NextEntry(t: nat, i: nat)
    ensures Entry(t + 1, i) == Xor(Entry(t, i) / 256, Entry(0, Entry(t, i) % 256))
  {
    var c := Steps(i, 8 * (t + 1));
    assert Entry(t + 1, i) == Steps(c, 8) by { StepsAdd(i, 8 * (t + 1), 8); }
    StepsByte(c);
  }

  lemma SliceOne(d: nat, n: nat)
    ensures Steps(d, 8 + n) == Xor(Steps(d % 256, 8 + n), Steps(d / 256, n))
  {
    StepsAdd(d, 8, n);
    StepsByte(d);
    StepsXor(d / 256, Entry(0, d % 256), n);
    StepsAdd(d % 256, 8, n);
    XorComm(Steps(d / 256, n), Steps(d % 256, 8 + n));
  }

  // One lookup per byte of the word, each in the table that accounts for the bytes after it.
  lemma SliceFour(d: nat)
    requires d <= ONES
    ensures Steps(d, 32) == Xor(Xor(Xor(Entry(3, d % 256), Entry(2, d / 256 % 256)),
                                    Entry(1, d / 0x1_0000 % 256)), Entry(0, d / 0x100_0000 % 256))
  {
    var h1, h2, h3 := d / 256, d / 0x1_0000, d / 0x100_0000;
    WordBytes(d);
    SliceNested(d, h1, h2, h3);
    Regroup(Entry(3, d % 256), Entry(2, h1 % 256), Entry(1, h2 % 256), Entry(0, h3));
  }

  lemma WordBytes(d: nat)
    requires d <= ONES
    ensures d / 256 / 256 == d / 0x1_0000 && d / 0x1_0000 / 256 == d / 0x100_0000 == d / 0x100_0000 % 256
  {
  }

  lemma SliceNested(d: nat, h1: nat, h2: nat, h3: nat)
    requires h1 == d / 256 && h2 == h1 / 256 && h3 == h2 / 256
    ensures Steps(d, 32) == Xor(Entry(3, d % 256), Xor(Entry(2, h1 % 256), Xor(Entry(1, h2 % 256), Entry(0, h3))))
  {
    SliceOne(d, 24);
    SliceOne(h1, 16);
    SliceOne(h2, 8);
  }

  lemma Regroup(a: nat, b: nat, c: nat, d: nat)
    ensures Xor(a, Xor(b, Xor(c, d))) == Xor(Xor(Xor(a, b), c), d)
  {
    XorAssoc(a, b, Xor(c, d));
    XorAssoc(Xor(a, b), c, d);
  }

  // ----- the code -----

  /** `table` holds the entries of table `t`. */
  ghost predicate IsTable(table: seq<nat>, t: nat) {
    |table| == 256 && forall i :: 0 <= i < 256 ==> table[i] == Entry(t, i)
  }

  /** The first table, as the source's constant initialiser builds it. */
  method BuildTable() returns (table: seq<nat>)
    ensures IsTable(table, 0)
  {
    var t0 := new nat[256];
    for i := 0 to 256
      invariant forall k :: 0 <= k < i ==> t0[k] == Entry(0, k)
    {
      var crc := i;
      for j := 0 to 8
        invariant Steps(crc, 8 - j) == Steps(i, 8)
      {
        if crc % 2 != 0 {
          crc := Xor(crc / 2, POLY);
        } else {
          crc := crc / 2;
        }
      }
      t0[i] := crc;
    }
    table := t0[..];
  }

  /** The table after `table`, which is table `t`. */
  method NextTable(t0: seq<nat>, table: seq<nat>, ghost t: nat) returns (next: seq<nat>)
    requires IsTable(t0, 0) && IsTable(table, t)
    ensures IsTable(next, t + 1)
  {
    var r := new nat[256];
    for i := 0 to 256
      invariant forall j :: 0 <= j < i ==> r[j] == Entry(t + 1, j)
    {
      r[i] := Xor(table[i] / 256, t0[table[i] % 256]);
      NextEntry(t, i);
    }
    next := r[..];
  }

  /** Slicing-by-4: four bytes per iteration, then the remaining bytes one at a time. */
  method Crc32(data: seq<byte>) returns (crc: nat)
    ensures crc == Crc(data)
  {
    var t0 := BuildTable();
    var t1 := NextTable(t0, t0, 0);
    var t2 := NextTable(t0, t1, 1);
    var t3 := NextTable(t0, t2, 2);
    crc := ONES;
    var i := 0;
    while i + 4 <= |data|
      invariant 0 <= i <= |data| && crc <= ONES
      invariant crc == FeedAll(ONES, MessageBits(data[..i]))
    {
      crc := FourBytes(t0, t1, t2, t3, data, i, crc);
      i := i + 4;
    }
    while i < |data|
      invariant 0 <= i <= |data| && crc <= ONES
      invariant crc == FeedAll(ONES, MessageBits(data[..i]))
    {
      OneByte(data, i, crc);
      var idx := Xor(crc, data[i]) % 256;
      crc := Xor(crc / 256, t0[idx]);
      i := i + 1;
    }
    assert data[..i] == data;
    crc := Xor(crc, ONES);
  }

  method FourBytes(t0: seq<nat>, t1: seq<nat>, t2: seq<nat>, t3: seq<nat>, data: seq<byte>, i: nat, c: nat)
    returns (crc: nat)
    requires IsTable(t0, 0) && IsTable(t1, 1) && IsTable(t2, 2) && IsTable(t3, 3)
    requires i + 4 <= |data| && c <= ONES && c == FeedAll(ONES, MessageBits(data[..i]))
    ensures crc == FeedAll(ONES, MessageBits(data[..i + 4])) && crc <= ONES
  {
    var d := Xor(c, U32(data, i));
    FourBytesFed(data, i, c);
    var b0, b1, b2, b3 := d % 256, d / 256 % 256, d / 0x1_0000 % 256, d / 0x100_0000 % 256;
    crc := Xor(Xor(Xor(t3[b0], t2[b1]), t1[b2]), t0[b3]);
  }

  lemma FeedBound(c: nat, data: seq<byte>)
    requires c <= ONES && |data| <= 4
    ensures Xor(c, LeValue(data)) <= ONES && FeedAll(c, MessageBits(data)) <= ONES
  {
    LeBits(data);
    PowersOfTwo();
    PowMono(8 * |data|, 32);
    XorBound(c, LeValue(data), 32);
    FeedBytes(c, data);
    StepsBound(Xor(c, LeValue(data)), 8 * |data|);
  }

  lemma {:induction false} PowMono(m: nat, n: nat)
    requires m <= n
    ensures Pow2(m) <= Pow2(n)
    decreases n
  {
    if m < n {
      PowMono(m, n - 1);
    }
  }

  lemma {:induction false} StepsBound(c: nat, n: nat)
    requires c <= ONES
    ensures Steps(c, n) <= ONES
    decreases n
  {
    if n > 0 {
      BitStepBound(c);
      StepsBound(BitStep(c), n - 1);
    }
  }

  lemma FeedMore(c: nat, data: seq<byte>, i: nat, n: nat)
    requires i + n <= |data| && c == FeedAll(ONES, MessageBits(data[..i]))
    ensures FeedAll(c, MessageBits(data[i..i + n])) == FeedAll(ONES, MessageBits(data[..i + n]))
  {
    assert data[..i + n] == data[..i] + data[i..i + n];
    MessageConcat(data[..i], data[i..i + n]);
    FeedConcat(ONES, MessageBits(data[..i]), MessageBits(data[i..i + n]));
  }

  lemma FourBytesFed(data: seq<byte>, i: nat, c: nat)
    requires i + 4 <= |data| && c <= ONES && c == FeedAll(ONES, MessageBits(data[..i]))
    ensures var d := Xor(c, U32(data, i));
            && d <= ONES
            && Xor(Xor(Xor(Entry(3, d % 256), Entry(2, d / 256 % 256)), Entry(1, d / 0x1_0000 % 256)),
                   Entry(0, d / 0x100_0000 % 256))
               == FeedAll(ONES, MessageBits(data[..i + 4])) <= ONES
  {
    WordAt(data, i);
    WordFed(data, i, c, U32(data, i));
    SliceFour(Xor(c, U32(data, i)));
  }

  lemma WordAt(data: seq<byte>, i: nat)
    requires i + 4 <= |data|
    ensures LeValue(data[i..i + 4]) == U32(data, i)
  {
    WordValue(data[i..i + 4]);
  }

  lemma WordFed(data: seq<byte>, i: nat, c: nat, w: nat)
    requires i + 4 <= |data| && c <= ONES && c == FeedAll(ONES, MessageBits(data[..i]))
    requires w == LeValue(data[i..i + 4])
    ensures Xor(c, w) <= ONES && Steps(Xor(c, w), 32) == FeedAll(ONES, MessageBits(data[..i + 4])) <= ONES
  {
    FeedMore(c, data, i, 4);
    FedWord(c, data[i..i + 4]);
  }

  lemma FedWord(c: nat, w: seq<byte>)
    requires c <= ONES && |w| == 4
    ensures Xor(c, LeValue(w)) <= ONES && Steps(Xor(c, LeValue(w)), 32) == FeedAll(c, MessageBits(w)) <= ONES
  {
    FeedBytes(c, w);
    FeedBound(c, w);
  }

  lemma WordValue(w: seq<byte>)
    requires |w| == 4
    ensures LeValue(w) == U32(w, 0)
  {
    var w1, w2, w3 := w[1..], w[2..], w[3..];
    assert LeValue(w3) == w[3] by { assert w3[1..] == []; }
    assert LeValue(w2) == w[2] as int + 256 * LeValue(w3) by { assert w2[1..] == w3; }
    assert LeValue(w1) == w[1] as int + 256 * LeValue(w2) by { assert w1[1..] == w2; }
  }

  lemma OneByte(data: seq<byte>, i: nat, c: nat)
    requires i < |data| && c <= ONES && c == FeedAll(ONES, MessageBits(data[..i]))
    ensures Xor(c / 256, Entry(0, Xor(c, data[i]) % 256)) == FeedAll(ONES, MessageBits(data[..i + 1])) <= ONES
  {
    FeedMore(c, data, i, 1);
    FedByte(c, data[i..i + 1]);
    ByteLookup(c, data[i]);
  }

  lemma FedByte(c: nat, w: seq<byte>)
    requires c <= ONES && |w| == 1
    ensures Steps(Xor(c, w[0]), 8) == FeedAll(c, MessageBits(w)) <= ONES
  {
    FeedBytes(c, w);
    FeedBound(c, w);
    assert LeValue(w) == w[0] by { assert w[1..] == []; }
  }

  lemma ByteLookup(c: nat, b: byte)
    ensures Steps(Xor(c, b), 8) == Xor(c / 256, Entry(0, Xor(c, b) % 256))
  {
    StepsByte(Xor(c, b));
    XorShr(c, b, 8);
    ByteShift(c);
    ByteShift(b);
    ByteShift(Xor(c, b));
    XorComm(c / 256, 0);
  }

  // ----- what the checksum detects -----

  ghost predicate AreBits(u: seq<nat>) {
    forall i :: 0 <= i < |u| ==> u[i] <= 1
  }

  function Num(u: seq<nat>): nat {
    if u == [] then 0 else u[0] + 2 * Num(u[1..])
  }

  lemma {:induction false} NumBits(u: seq<nat>)
    requires AreBits(u)
    ensures Bits(Num(u), |u|) == u && Num(u) < Pow2(|u|)
  {
    if u != [] {
      NumBits(u[1..]);
      LowBit(u[0], Num(u[1..]));
    }
  }

  lemma {:induction false} FeedAllInjective(c: nat, d: nat, u: seq<nat>)
    requires c <= ONES && d <= ONES && AreBits(u) && FeedAll(c, u) == FeedAll(d, u)
    ensures c == d
    decreases u
  {
    if u != [] {
      FeedBitBound(c, u[0]);
      FeedBitBound(d, u[0]);
      FeedAllInjective(Feed(c, u[0]), Feed(d, u[0]), u[1..]);
      BitStepInjective(Xor(c, u[0]), Xor(d, u[0]));
      XorCancel(c, d, u[0]);
    }
  }

  lemma FeedBitBound(c: nat, b: nat)
    requires c <= ONES && b <= 1
    ensures Xor(c, b) <= ONES && Feed(c, b) <= ONES
  {
    PowersOfTwo();
    XorBound(c, b, 32);
    BitStepBound(Xor(c, b));
  }

  lemma {:induction false} FeedAllBound(c: nat, u: seq<nat>)
    requires c <= ONES && AreBits(u)
    ensures FeedAll(c, u) <= ONES
    decreases u
  {
    if u != [] {
      FeedBitBound(c, u[0]);
      FeedAllBound(Feed(c, u[0]), u[1..]);
    }
  }

  lemma CrcBound(data: seq<byte>)
    ensures Crc(data) <= ONES
  {
    MessageAreBits(data);
    FeedAllBound(ONES, MessageBits(data));
    PowersOfTwo();
    XorBound(FeedAll(ONES, MessageBits(data)), ONES, 32);
  }

  // Up to 32 consecutive bits are recovered from the register they leave behind.
  lemma WindowInjective(c: nat, u: seq<nat>, v: seq<nat>)
    requires c <= ONES && AreBits(u) && AreBits(v) && |u| == |v| <= 32
    requires FeedAll(c, u) == FeedAll(c, v)
    ensures u == v
  {
    WindowSteps(c, u);
    WindowSteps(c, v);
    StepsInjective(Xor(c, Num(u)), Xor(c, Num(v)), |u|);
    XorComm(c, Num(u));
    XorComm(c, Num(v));
    XorCancel(Num(u), Num(v), c);
    NumBits(u);
    NumBits(v);
  }

  lemma WindowSteps(c: nat, u: seq<nat>)
    requires c <= ONES && AreBits(u) && |u| <= 32
    ensures Xor(c, Num(u)) <= ONES && FeedAll(c, u) == Steps(Xor(c, Num(u)), |u|)
  {
    NumBits(u);
    PowersOfTwo();
    PowMono(|u|, 32);
    XorBound(c, Num(u), 32);
    FeedBits(c, Num(u), |u|);
  }

  lemma {:induction false} BitsAreBits(w: nat, n: nat)
    ensures AreBits(Bits(w, n))
    decreases n
  {
    if n > 0 {
      BitsAreBits(w / 2, n - 1);
    }
  }

  lemma {:induction false} MessageAreBits(data: seq<byte>)
    ensures AreBits(MessageBits(data)) && |MessageBits(data)| == 8 * |data|
  {
    if data != [] {
      BitsAreBits(data[0], 8);
      MessageAreBits(data[1..]);
    }
  }

  lemma {:induction false} BitsInjective(x: nat, y: nat, n: nat)
    requires x < Pow2(n) && y < Pow2(n) && Bits(x, n) == Bits(y, n)
    ensures x == y
    decreases n
  {
    if n > 0 {
      assert Bits(x, n)[0] == Bits(y, n)[0];
      assert Bits(x, n)[1..] == Bits(y, n)[1..];
      BitsInjective(x / 2, y / 2, n - 1);
    }
  }

  lemma HeadBits(x: seq<nat>, xs: seq<nat>, y: seq<nat>, ys: seq<nat>)
    requires x + xs == y + ys && |x| == |y|
    ensures x == y && xs == ys
  {
    assert (x + xs)[..|x|] == x && (y + ys)[..|y|] == y;
    assert (x + xs)[|x|..] == xs && (y + ys)[|y|..] == ys;
  }

  lemma {:induction false} MessageInjective(a: seq<byte>, b: seq<byte>)
    requires |a| == |b| && MessageBits(a) == MessageBits(b)
    ensures a == b
  {
    if a != [] {
      HeadBits(Bits(a[0], 8), MessageBits(a[1..]), Bits(b[0], 8), MessageBits(b[1..]));
      PowersOfTwo();
      BitsInjective(a[0], b[0], 8);
      MessageInjective(a[1..], b[1..]);
      assert a == [a[0]] + a[1..] && b == [b[0]] + b[1..];
    }
  }

  /** The two messages agree in every bit outside `n` consecutive ones starting at bit `i`. */
  ghost predicate DifferInBurst(a: seq<byte>, b: seq<byte>, i: nat, n: nat) {
    && |a| == |b| && a != b
    && |MessageBits(a)| == |MessageBits(b)| >= i + n
    && MessageBits(a)[..i] == MessageBits(b)[..i]
    && MessageBits(a)[i + n..] == MessageBits(b)[i + n..]
  }

  // Every error burst of at most 32 bits, at any bit position of any message, changes the checksum.
  lemma BurstDetected(a: seq<byte>, b: seq<byte>, i: nat, n: nat)
    requires n <= 32 && DifferInBurst(a, b, i, n)
    ensures Crc(a) != Crc(b)
  {
    if Crc(a) == Crc(b) {
      XorCancel(FeedAll(ONES, MessageBits(a)), FeedAll(ONES, MessageBits(b)), ONES);
      MessageAreBits(a);
      MessageAreBits(b);
      SameRegister(MessageBits(a), MessageBits(b), i, n);
      MessageInjective(a, b);
    }
  }

  lemma SameRegister(x: seq<nat>, y: seq<nat>, i: nat, n: nat)
    requires AreBits(x) && AreBits(y) && n <= 32 && i + n <= |x| == |y|
    requires x[..i] == y[..i] && x[i + n..] == y[i + n..] && FeedAll(ONES, x) == FeedAll(ONES, y)
    ensures x == y
  {
    var p, s, u, v := x[..i], x[i + n..], x[i..i + n], y[i..i + n];
    assert x == p + (u + s);
    assert y == p + (v + s);
    BurstFed(ONES, p, u, v, s);
  }

  lemma BurstFed(c: nat, p: seq<nat>, u: seq<nat>, v: seq<nat>, s: seq<nat>)
    requires c <= ONES && AreBits(p) && AreBits(u) && AreBits(v) && AreBits(s) && |u| == |v| <= 32
    requires FeedAll(c, p + (u + s)) == FeedAll(c, p + (v + s))
    ensures u == v
  {
    FeedConcat(c, p, u + s);
    FeedConcat(c, p, v + s);
    FeedAllBound(c, p);
    var d := FeedAll(c, p);
    FeedConcat(d, u, s);
    FeedConcat(d, v, s);
    FeedAllBound(d, u);
    FeedAllBound(d, v);
    FeedAllInjective(FeedAll(d, u), FeedAll(d, v), s);
    WindowInjective(d, u, v);
  }

  // In particular: any change confined to four consecutive bytes.
  lemma FourBytesDetected(p: seq<byte>, u: seq<byte>, v: seq<byte>, s: seq<byte>)
    requires |u| == |v| <= 4 && u != v
    ensures Crc(p + u + s) != Crc(p + v + s)
  {
    BurstAt(p, u, s);
    BurstAt(p, v, s);
    MessageAreBits(u);
    MessageAreBits(v);
    Differ(p, u, v, s);
    BurstDetected(p + u + s, p + v + s, |MessageBits(p)|, |MessageBits(u)|);
  }

  lemma Differ(p: seq<byte>, u: seq<byte>, v: seq<byte>, s: seq<byte>)
    requires |u| == |v| && u != v
    ensures p + u + s != p + v + s
  {
    assert (p + u + s)[|p|..|p| + |u|] == u && (p + v + s)[|p|..|p| + |v|] == v;
  }

  lemma BurstAt(p: seq<byte>, u: seq<byte>, s: seq<byte>)
    ensures var i, n := |MessageBits(p)|, |MessageBits(u)|; var bits := MessageBits(p + u + s);
            |bits| == i + n + |MessageBits(s)| && bits[..i] == MessageBits(p) && bits[i + n..] == MessageBits(s)
  {
    MessageConcat(p + u, s);
    MessageConcat(p, u);
  }
}
