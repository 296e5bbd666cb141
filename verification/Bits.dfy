/** Fixed-width unsigned words as natural numbers: or, and, shift, complement. */
module Bits {
  function Pow2(k: nat): (p: nat)
    ensures p >= 1
  {
    if k == 0 then 1 else 2 * Pow2(k - 1)
  }

  /** Bitwise or, one binary digit at a time. */
  function Or(a: nat, b: nat): nat
  {
    if a == 0 then b
    else if b == 0 then a
    else 2 * Or(a / 2, b / 2) + (if a % 2 == 1 || b % 2 == 1 then 1 else 0)
  }

  /** Bitwise and, one binary digit at a time. */
  function And(a: nat, b: nat): nat
  {
    if a == 0 || b == 0 then 0
    else 2 * And(a / 2, b / 2) + (if a % 2 == 1 && b % 2 == 1 then 1 else 0)
  }

  /** Left shift of a word of `width` bits; bits pushed out are lost. */
  function Shl(a: nat, k: nat, width: nat): (r: nat)
    ensures r < Pow2(width)
  {
    (a * Pow2(k)) % Pow2(width)
  }

  /** All bits of a word set. */
  function Ones(width: nat): nat { Pow2(width) - 1 }

  /** Complement of a word of `width` bits. */
  function Not(a: nat, width: nat): nat
    requires a < Pow2(width)
  {
    Ones(width) - a
  }

  lemma {:induction false} Pow2Sum(a: nat, b: nat)
    ensures Pow2(a + b) == Pow2(a) * Pow2(b)
  {
    if a > 0 {
      Pow2Sum(a - 1, b);
      calc {
        Pow2(a + b);
        2 * (Pow2(a - 1) * Pow2(b));
        (2 * Pow2(a - 1)) * Pow2(b);
      }
    }
  }

  lemma {:induction false} Pow2Monotone(a: nat, b: nat)
    requires a <= b
    ensures Pow2(a) <= Pow2(b)
  {
    if a > 0 {
      Pow2Monotone(a - 1, b - 1);
    }
  }

  lemma Pow2Table()
    ensures Pow2(8) == 0x100 && Pow2(16) == 0x1_0000 && Pow2(24) == 0x100_0000 && Pow2(32) == 0x1_0000_0000
  {
    assert Pow2(4) == 16 by { assert Pow2(2) == 4; }
    Pow2Sum(4, 4);
    Pow2Sum(8, 8);
    Pow2Sum(16, 8);
    Pow2Sum(16, 16);
  }

  /** The or of a multiple of 2^k and a number below 2^k is their sum. */
  lemma {:induction false} OrDisjoint(a: nat, b: nat, k: nat)
    requires b < Pow2(k)
    ensures Or(a * Pow2(k), b) == a * Pow2(k) + b
  {
    if k > 0 && b > 0 && a > 0 {
      var m := a * Pow2(k - 1);
      assert a * Pow2(k) == 2 * m;
      assert m > 0;
      OrDisjoint(a, b / 2, k - 1);
    }
  }

  /** The and with the k lowest bits is the remainder modulo 2^k. */
  lemma {:induction false} AndLowBits(a: nat, k: nat)
    ensures And(a, Ones(k)) == a % Pow2(k)
  {
    if a == 0 {
      ModUnique(0, Pow2(k), 0, 0);
    } else if k == 0 {
      assert Pow2(0) == 1;
    } else {
      OnesHalf(k);
      AndLowBits(a / 2, k - 1);
      ModHalf(a, k);
      AndUnfold(a, Ones(k));
      LowBit(a);
    }
  }

  lemma OnesHalf(k: nat)
    requires k > 0
    ensures Ones(k) > 0 && Ones(k) / 2 == Ones(k - 1) && Ones(k) % 2 == 1
  {
  }

  lemma LowBit(a: nat)
    ensures a % 2 == if a % 2 == 1 then 1 else 0
  {
  }

  lemma AndUnfold(a: nat, b: nat)
    requires a > 0 && b > 0
    ensures And(a, b) == 2 * And(a / 2, b / 2) + (if a % 2 == 1 && b % 2 == 1 then 1 else 0)
  {
  }

  lemma ModHalf(a: nat, k: nat)
    requires k > 0
    ensures a % Pow2(k) == 2 * ((a / 2) % Pow2(k - 1)) + a % 2
  {
    var p := Pow2(k - 1);
    DivMod(a / 2, p);
    var q, r := (a / 2) / p, (a / 2) % p;
    Reassociate(q, p);
    ModUnique(a, 2 * p, q, 2 * r + a % 2);
  }

  lemma Reassociate(q: nat, p: nat)
    ensures q * (2 * p) == 2 * (q * p)
  {
  }

  lemma Distribute(x: int, y: int, p: int)
    ensures (x - y) * p == x * p - y * p
  {
  }

  lemma AtLeastOnce(x: int, p: int)
    requires x >= 1 && p >= 0
    ensures x * p >= p
  {
  }

  lemma DivMod(a: nat, p: nat)
    requires p > 0
    ensures a == (a / p) * p + a % p && 0 <= a % p < p
  {
  }

  lemma ModUnique(a: nat, p: nat, q: nat, r: nat)
    requires p > 0 && r < p && a == q * p + r
    ensures a % p == r && a / p == q
  {
    DivMod(a, p);
    var q', r' := a / p, a % p;
    Distribute(q, q', p);
    Distribute(q', q, p);
    if q > q' {
      AtLeastOnce(q - q', p);
    } else if q < q' {
      AtLeastOnce(q' - q, p);
    }
  }

  /** A shift that stays inside the word loses nothing. */
  lemma ShlSmall(a: nat, k: nat, width: nat)
    requires a * Pow2(k) < Pow2(width)
    ensures Shl(a, k, width) == a * Pow2(k)
  {
    ModUnique(a * Pow2(k), Pow2(width), 0, a * Pow2(k));
  }

  /** All ones shifted left by `width - n`: the mask of an n-bit prefix. */
  lemma ShlOnes(n: nat, width: nat)
    requires n <= width
    ensures Shl(Ones(width), width - n, width) == Pow2(width) - Pow2(width - n)
  {
    Pow2Monotone(width - n, width);
    OnesTimes(Pow2(width), Pow2(width - n));
    var p, m := Pow2(width), Pow2(width - n);
    ModUnique((p - 1) * m, p, m - 1, p - m);
  }

  lemma OnesTimes(p: nat, m: nat)
    ensures (p - 1) * m == (m - 1) * p + (p - m)
  {
  }

  /** A byte shifted to just below a multiple of 2^(k + 8) is added by the or. */
  lemma OrByte(x: nat, o: nat, k: nat, width: nat)
    requires o <= 255 && k + 8 <= width
    ensures Or(x * Pow2(k + 8), Shl(o, k, width)) == (x * 256 + o) * Pow2(k)
  {
    Pow2Table();
    Pow2Sum(8, k);
    Pow2Monotone(k + 8, width);
    var p := Pow2(k);
    Scale(o, 256, p);
    ShlSmall(o, k, width);
    OrDisjoint(x, o * p, k + 8);
    Horner(x, o, p);
  }

  lemma Horner(x: nat, o: nat, p: nat)
    ensures (x * 256 + o) * p == x * (256 * p) + o * p
  {
  }

  /** All ones of a double word shifted left by at most one word, cut to the low word. */
  lemma LowMask(k: nat, width: nat)
    requires k < width
    ensures Shl(Ones(width + width), k, width + width) % Pow2(width) == Pow2(width) - Pow2(k)
  {
    hide Shl, Pow2, Ones;
    ShlOnes(width + width - k, width + width);
    Pow2Sum(width, width);
    Pow2Monotone(k, width);
    var w, m := Pow2(width), Pow2(k);
    SquareMinus(w, m);
  }

  lemma SquareMinus(w: nat, m: nat)
    requires 0 < m <= w
    ensures w * w >= m && (w * w - m) % w == w - m
  {
    Distribute(w, 1, w);
    AtLeastOnce(w, w);
    ModUnique(w * w - m, w, w - 1, w - m);
  }

  lemma Scale(o: nat, n: nat, p: nat)
    requires o < n && p > 0
    ensures o * p < n * p
  {
  }

  /** Host bits are all zero exactly when the address is a multiple of 2^(width - n). */
  lemma HostBitsZero(a: nat, n: nat, width: nat)
    requires n <= width
    ensures Shl(Ones(width), width - n, width) == Pow2(width) - Pow2(width - n)
    ensures And(a, Not(Shl(Ones(width), width - n, width), width)) == 0 <==> a % Pow2(width - n) == 0
  {
    ShlOnes(n, width);
    AndLowBits(a, width - n);
  }
}
