/**
 Unsigned machine words as natural numbers: powers of two, shifts, masks, bitwise `or` and
 bit-field extraction, with the laws that let disjoint fields be packed and read back.
 */
module Bits {

  function Pow2(n: nat): (r: nat)
    ensures r > 0
  {
    if n == 0 then 1 else 2 * Pow2(n - 1)
  }

  /** `x >> n`. */
  function Shr(x: nat, n: nat): nat {
    if n == 0 then x else Shr(x / 2, n - 1)
  }

  /** `x & ((1 << n) - 1)`. */
  function Low(x: nat, n: nat): (r: nat)
    ensures r < Pow2(n)
  {
    if n == 0 then 0 else 2 * Low(x / 2, n - 1) + x % 2
  }

  /** `x << n` on an unsigned word of `bits` bits: whatever is shifted past the top is lost. */
  function Shl(x: nat, n: nat, bits: nat): nat {
    Low(x * Pow2(n), bits)
  }

  /** Bitwise `or` of two unsigned words. */
  function Or(a: nat, b: nat): nat {
    if a == 0 then b
    else if b == 0 then a
    else 2 * Or(a / 2, b / 2) + (if a % 2 == 1 || b % 2 == 1 then 1 else 0)
  }

  /** Bits `[lo, lo + width)` of a word. */
  function Field(w: nat, lo: nat, width: nat): nat {
    Low(Shr(w, lo), width)
  }

  // ---------------------------------------------------------------------------------------------
  // Arithmetic
  // ---------------------------------------------------------------------------------------------

  lemma MulNonNeg(a: int, b: int)
    requires a >= 0 && b >= 0
    ensures a * b >= 0
  {
  }

  lemma MulMono(x: int, y: int, d: int)
    requires x <= y && d >= 0
    ensures x * d <= y * d
  {
    assert (y - x) * d == y * d - x * d;
    MulNonNeg(y - x, d);
  }

  lemma Distribute(a: int, b: int, d: int)
    ensures (a + b) * d == a * d + b * d
  {
  }

  lemma Assoc(a: int, b: int, c: int)
    ensures a * (b * c) == (a * b) * c
  {
  }

  lemma {:induction false} Pow2Add(a: nat, b: nat)
    ensures Pow2(a + b) == Pow2(a) * Pow2(b)
  {
    if a > 0 {
      Pow2Add(a - 1, b);
      assert a + b - 1 == (a - 1) + b;
      Assoc(2, Pow2(a - 1), Pow2(b));
    }
  }

  lemma {:induction false} Pow2Mono(a: nat, b: nat)
    requires a <= b
    ensures Pow2(a) <= Pow2(b)
  {
    if a < b { Pow2Mono(a, b - 1); }
  }

  /** Doubling an exponent squares the power. */
  lemma Pow2Double(a: nat, v: nat)
    requires Pow2(a) == v
    ensures Pow2(2 * a) == v * v
  {
    hide Pow2;
    Pow2Add(a, a);
    assert a + a == 2 * a;
  }

  // ---------------------------------------------------------------------------------------------
  // Splitting a word
  // ---------------------------------------------------------------------------------------------

  /** Every word is its high part followed by its low part. */
  lemma {:induction false} ShrLow(x: nat, n: nat)
    ensures x == Shr(x, n) * Pow2(n) + Low(x, n)
  {
    if n > 0 {
      ShrLow(x / 2, n - 1);
      var q := Shr(x / 2, n - 1);
      assert q * Pow2(n) == 2 * (q * Pow2(n - 1)) by { Assoc(q, 2, Pow2(n - 1)); Assoc(2, q, Pow2(n - 1)); }
    }
  }

  /** ... and there is only one way to split it. */
  lemma Unique(x: nat, n: nat, q: nat, r: nat)
    requires r < Pow2(n) && x == q * Pow2(n) + r
    ensures Shr(x, n) == q && Low(x, n) == r
  {
    ShrLow(x, n);
    Compare(q, r, Shr(x, n), Low(x, n), Pow2(n));
    Compare(Shr(x, n), Low(x, n), q, r, Pow2(n));
  }

  lemma Compare(q: nat, r: nat, q': nat, r': nat, d: nat)
    requires r < d && q * d + r == q' * d + r'
    ensures q' <= q
  {
    if q' > q {
      MulMono(q + 1, q', d);
      Distribute(q, 1, d);
    }
  }

  lemma LowSmall(x: nat, n: nat)
    requires x < Pow2(n)
    ensures Low(x, n) == x && Shr(x, n) == 0
  {
    Unique(x, n, 0, x);
  }

  /** Masking and shifting are remainder and quotient. */
  lemma LowMod(x: nat, n: nat)
    ensures Low(x, n) == x % Pow2(n) && Shr(x, n) == x / Pow2(n)
  {
    hide Low, Shr;
    var d := Pow2(n);
    var q, r := x / d, x % d;
    QuotientNat(x, d);
    Unique(x, n, q, r);
  }

  lemma QuotientNat(x: nat, d: nat)
    requires d > 0
    ensures x / d >= 0 && x == (x / d) * d + x % d
  {
  }

  lemma ShlShr(x: nat, n: nat)
    ensures Shr(x * Pow2(n), n) == x && Low(x * Pow2(n), n) == 0
  {
    Unique(x * Pow2(n), n, x, 0);
  }

  /** Adding a multiple of `2^n` adds to the high part and leaves the low part. */
  lemma ShrAdd(a: nat, q: nat, n: nat)
    ensures Shr(a + q * Pow2(n), n) == Shr(a, n) + q
    ensures Low(a + q * Pow2(n), n) == Low(a, n)
  {
    ShrLow(a, n);
    Distribute(Shr(a, n), q, Pow2(n));
    Unique(a + q * Pow2(n), n, Shr(a, n) + q, Low(a, n));
  }

  lemma ShrBound(x: nat, n: nat, t: nat)
    requires x < Pow2(n + t)
    ensures Shr(x, n) < Pow2(t)
  {
    Pow2Add(n, t);
    ShrLow(x, n);
    if Shr(x, n) >= Pow2(t) { MulMono(Pow2(t), Shr(x, n), Pow2(n)); }
  }

  lemma ShrMono(a: nat, b: nat, n: nat)
    requires a <= b
    ensures Shr(a, n) <= Shr(b, n)
  {
    ShrLow(a, n);
    ShrLow(b, n);
    if Shr(a, n) > Shr(b, n) {
      MulMono(Shr(b, n) + 1, Shr(a, n), Pow2(n));
      Distribute(Shr(b, n), 1, Pow2(n));
    }
  }

  lemma LowLow(w: nat, a: nat, b: nat)
    requires b <= a
    ensures Low(Low(w, a), b) == Low(w, b)
  {
    Pow2Add(a - b, b);
    ShrLow(w, a);
    Assoc(Shr(w, a), Pow2(a - b), Pow2(b));
    ShrAdd(Low(w, a), Shr(w, a) * Pow2(a - b), b);
  }

  // ---------------------------------------------------------------------------------------------
  // Packing fields
  // ---------------------------------------------------------------------------------------------

  /** Or-ing a field placed above an already packed prefix is addition. */
  lemma {:induction false} OrAppend(acc: nat, x: nat, lo: nat)
    requires acc < Pow2(lo)
    ensures Or(acc, x * Pow2(lo)) == acc + x * Pow2(lo)
  {
    if lo > 0 && acc > 0 && x > 0 {
      Assoc(x, 2, Pow2(lo - 1));
      Assoc(2, x, Pow2(lo - 1));
      var half := x * Pow2(lo - 1);
      assert x * Pow2(lo) == 2 * half;
      MulMono(1, x, Pow2(lo - 1));
      OrAppend(acc / 2, x, lo - 1);
    }
  }

  /** A prefix of `lo` bits followed by a `width`-bit field fits in `lo + width` bits. */
  lemma AppendBound(acc: nat, x: nat, lo: nat, width: nat)
    requires acc < Pow2(lo) && x < Pow2(width)
    ensures acc + x * Pow2(lo) < Pow2(lo + width)
  {
    Pow2Add(lo, width);
    MulMono(x + 1, Pow2(width), Pow2(lo));
    Distribute(x, 1, Pow2(lo));
  }

  /** Appending a field leaves every field below it unchanged. */
  lemma FieldBelow(acc: nat, x: nat, lo: nat, l: nat, width: nat)
    requires l + width <= lo
    ensures Field(acc + x * Pow2(lo), l, width) == Field(acc, l, width)
  {
    hide Low, Shr, Pow2;
    var mid := lo - l;
    var rest := mid - width;
    Pow2Add(mid, l);
    Assoc(x, Pow2(mid), Pow2(l));
    ShrAdd(acc, x * Pow2(mid), l);
    Pow2Add(rest, width);
    Assoc(x, Pow2(rest), Pow2(width));
    ShrAdd(Shr(acc, l), x * Pow2(rest), width);
  }

  /** The appended field itself reads back, cut to the width it is read with. */
  lemma FieldTop(acc: nat, x: nat, lo: nat, width: nat)
    requires acc < Pow2(lo)
    ensures Field(acc + x * Pow2(lo), lo, width) == Low(x, width)
  {
    Unique(acc + x * Pow2(lo), lo, x, acc);
  }

  /** A field that ends below bit `at` is a field of the low `at` bits. */
  lemma FieldLow(w: nat, at: nat, l: nat, width: nat)
    requires l + width <= at
    ensures Field(w, l, width) == Field(Low(w, at), l, width)
  {
    ShrLow(w, at);
    FieldBelow(Low(w, at), Shr(w, at), at, l, width);
  }

  /** A shift on a `bits`-wide word keeps the low `bits - n` bits of its operand. */
  lemma ShlKeeps(x: nat, n: nat, bits: nat)
    requires n <= bits
    ensures Shl(x, n, bits) == Low(x, bits - n) * Pow2(n)
  {
    var m := bits - n;
    var q, r := Shr(x, m), Low(x, m);
    ShrLow(x, m);
    Pow2Add(m, n);
    Distribute(q * Pow2(m), r, Pow2(n));
    Assoc(q, Pow2(m), Pow2(n));
    AppendBound(0, r, n, m);
    assert n + m == bits;
    Unique(x * Pow2(n), bits, q, r * Pow2(n));
  }

  lemma ShlSmall(x: nat, n: nat, width: nat, bits: nat)
    requires x < Pow2(width) && n + width <= bits
    ensures Shl(x, n, bits) == x * Pow2(n)
  {
    ShlKeeps(x, n, bits);
    Pow2Mono(width, bits - n);
    LowSmall(x, bits - n);
  }

  /** A field or-ed in above a packed prefix reads back and keeps the word in bounds. */
  lemma OrField(acc: nat, x: nat, lo: nat, width: nat, bits: nat)
    requires acc < Pow2(lo) && x < Pow2(width) && lo + width <= bits
    ensures Or(acc, Shl(x, lo, bits)) < Pow2(lo + width)
    ensures Field(Or(acc, Shl(x, lo, bits)), lo, width) == x
  {
    ShlSmall(x, lo, width, bits);
    OrAppend(acc, x, lo);
    AppendBound(acc, x, lo, width);
    FieldTop(acc, x, lo, width);
    LowSmall(x, width);
  }

  /** Whatever is or-ed in above a packed prefix leaves the prefix alone. */
  lemma OrLow(acc: nat, x: nat, lo: nat, bits: nat)
    requires acc < Pow2(lo) && lo <= bits
    ensures Low(Or(acc, Shl(x, lo, bits)), lo) == acc
  {
    ShlKeeps(x, lo, bits);
    var cut := Low(x, bits - lo);
    OrAppend(acc, cut, lo);
    Unique(acc + cut * Pow2(lo), lo, cut, acc);
  }

  /** ... and so the prefix's fields. */
  lemma OrKeeps(acc: nat, x: nat, lo: nat, bits: nat, l: nat, width: nat)
    requires acc < Pow2(lo) && lo <= bits && l + width <= lo
    ensures Field(Or(acc, Shl(x, lo, bits)), l, width) == Field(acc, l, width)
  {
    OrLow(acc, x, lo, bits);
    FieldLow(Or(acc, Shl(x, lo, bits)), lo, l, width);
  }
}
