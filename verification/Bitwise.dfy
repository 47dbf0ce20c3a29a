// Exclusive or on naturals, bit by bit, and powers of two.
module Bitwise {

  function Pow2(n: nat): (r: nat)
    ensures r > 0
  {
    if n == 0 then 1 else 2 * Pow2(n - 1)
  }

  function Xor(a: nat, b: nat): nat
    decreases a + b
  {
    if a == 0 then b else if b == 0 then a
    else (a + b) % 2 + 2 * Xor(a / 2, b / 2)
  }

  // The recursive equation without the shortcuts.
  lemma XorBits(a: nat, b: nat)
    ensures Xor(a, b) % 2 == (a + b) % 2
    ensures Xor(a, b) / 2 == Xor(a / 2, b / 2)
  {
    var l, h := (a + b) % 2, Xor(a / 2, b / 2);
    if a > 0 && b > 0 {
      assert Xor(a, b) == l + 2 * h;
      LowBit(l, h);
    } else if a == 0 {
      assert Xor(a, b) == b && h == b / 2;
    } else {
      assert Xor(a, b) == a && h == a / 2;
    }
  }

  lemma LowBit(l: nat, h: nat)
    requires l < 2
    ensures (l + 2 * h) % 2 == l && (l + 2 * h) / 2 == h
  {
  }

  lemma {:induction false} XorComm(a: nat, b: nat)
    ensures Xor(a, b) == Xor(b, a)
    decreases a + b
  {
    if a > 0 && b > 0 {
      XorComm(a / 2, b / 2);
    }
  }

  lemma {:induction false} XorAssoc(a: nat, b: nat, c: nat)
    ensures Xor(Xor(a, b), c) == Xor(a, Xor(b, c))
    decreases a + b + c
  {
    if a > 0 && b > 0 && c > 0 {
      XorAssoc(a / 2, b / 2, c / 2);
      AssocBit(a, b, c);
    }
  }

  lemma AssocBit(a: nat, b: nat, c: nat)
    requires Xor(Xor(a / 2, b / 2), c / 2) == Xor(a / 2, Xor(b / 2, c / 2))
    ensures Xor(Xor(a, b), c) == Xor(a, Xor(b, c))
  {
    XorBits(a, b);
    XorBits(b, c);
    XorBits(Xor(a, b), c);
    XorBits(a, Xor(b, c));
    Parity(a, b, c, Xor(a, b), Xor(b, c), Xor(Xor(a, b), c), Xor(a, Xor(b, c)));
  }

  lemma Parity(a: nat, b: nat, c: nat, ab: nat, bc: nat, l: nat, r: nat)
    requires ab % 2 == (a + b) % 2 && bc % 2 == (b + c) % 2
    requires l % 2 == (ab + c) % 2 && r % 2 == (a + bc) % 2 && l / 2 == r / 2
    ensures l == r
  {
  }

  lemma {:induction false} XorSelf(a: nat)
    ensures Xor(a, a) == 0
  {
    if a > 0 {
      XorSelf(a / 2);
    }
  }

  lemma XorCancel(a: nat, b: nat, c: nat)
    requires Xor(a, c) == Xor(b, c)
    ensures a == b
  {
    XorAssoc(a, c, c);
    XorAssoc(b, c, c);
    XorSelf(c);
  }

  lemma XorSwap(a: nat, b: nat, c: nat, d: nat)
    ensures Xor(Xor(a, b), Xor(c, d)) == Xor(Xor(a, c), Xor(b, d))
  {
    XorAssoc(a, b, Xor(c, d));
    XorAssoc(b, c, d);
    XorComm(b, c);
    XorAssoc(c, b, d);
    XorAssoc(a, c, Xor(b, d));
  }

  lemma {:induction false} XorBound(a: nat, b: nat, n: nat)
    requires a < Pow2(n) && b < Pow2(n)
    ensures Xor(a, b) < Pow2(n)
    decreases n
  {
    if n > 0 && a > 0 && b > 0 {
      XorBound(a / 2, b / 2, n - 1);
    }
  }

  lemma {:induction false} XorHighBit(x: nat, y: nat, n: nat)
    requires x < Pow2(n) <= y < 2 * Pow2(n)
    ensures Pow2(n) <= Xor(x, y)
    decreases n
  {
    if n > 0 && x > 0 {
      XorHighBit(x / 2, y / 2, n - 1);
    }
  }

  /** `w >> n`, and the `n` bits shifted out. */
  function Shr(w: nat, n: nat): nat
    decreases n
  {
    if n == 0 then w else Shr(w / 2, n - 1)
  }

  function Low(w: nat, n: nat): nat
    decreases n
  {
    if n == 0 then 0 else w % 2 + 2 * Low(w / 2, n - 1)
  }

  lemma {:induction false} ShrAll(w: nat, n: nat)
    requires w < Pow2(n)
    ensures Shr(w, n) == 0
    decreases n
  {
    if n > 0 {
      ShrAll(w / 2, n - 1);
    }
  }

  lemma {:induction false} XorShr(a: nat, b: nat, n: nat)
    ensures Shr(Xor(a, b), n) == Xor(Shr(a, n), Shr(b, n))
    decreases n
  {
    if n > 0 {
      XorBits(a, b);
      XorShr(a / 2, b / 2, n - 1);
    }
  }

  lemma ByteShift(w: nat)
    ensures Shr(w, 8) == w / 256 && Low(w, 8) == w % 256
  {
    NibbleShift(w, 4);
    NibbleShift(w / 16, 0);
    assert Shr(w / 16, 4) == w / 16 / 16 == w / 256;
    assert w % 256 == w % 16 + 16 * (w / 16 % 16);
  }

  lemma NibbleShift(w: nat, n: nat)
    ensures Shr(w, 4 + n) == Shr(w / 16, n) && Low(w, 4 + n) == w % 16 + 16 * Low(w / 16, n)
  {
    var w1, w2, w3 := w / 2, w / 4, w / 8;
    assert Shr(w, 4 + n) == Shr(w1, 3 + n) == Shr(w2, 2 + n) == Shr(w3, 1 + n);
    assert Low(w2, 2 + n) == w2 % 2 + 2 * Low(w3, 1 + n);
    assert Low(w1, 3 + n) == w1 % 2 + 2 * Low(w2, 2 + n);
  }
}
