/** Binary numerals and bitwise conjunction on naturals, as the 32-bit masks of src/ClusterBootstrap/utils.py use them. */
module Binary {
  import opened Arithmetic

  function Pow2(k: nat): (p: nat)
    ensures p > 0
  {
    if k == 0 then 1 else 2 * Pow2(k - 1)
  }

  /** Python's int(s, 2) for a string of binary digits. */
  function FromBinary(s: string): nat {
    if s == "" then 0 else 2 * FromBinary(s[..|s| - 1]) + if s[|s| - 1] == '1' then 1 else 0
  }

  /** Python's string repetition; a negative count gives the empty string. */
  function Repeat(c: char, n: int): string {
    if n <= 0 then "" else Repeat(c, n - 1) + [c]
  }

  /** The bits set in both numbers. */
  function And(x: nat, y: nat): nat {
    if x == 0 || y == 0 then 0 else 2 * And(x / 2, y / 2) + (x % 2) * (y % 2)
  }

  lemma {:induction false} RepeatConcat(s: string, c: char, n: nat)
    ensures FromBinary(s + Repeat(c, n)) == FromBinary(s) * Pow2(n) + if c == '1' then Pow2(n) - 1 else 0
  {
    if n == 0 {
      assert s + Repeat(c, n) == s;
    } else {
      RepeatConcat(s, c, n - 1);
      FromBinaryAppend(s + Repeat(c, n - 1), c);
      assert s + Repeat(c, n) == s + Repeat(c, n - 1) + [c];
      DoubleShift(FromBinary(s), Pow2(n - 1), if c == '1' then 1 else 0);
    }
  }

  /** Appending one more digit doubles the value shifted by `p` with its `p - 1` filled in or not. */
  lemma DoubleShift(v: nat, p: nat, bit: nat)
    requires bit == 0 || bit == 1
    ensures 2 * (v * p + if bit == 1 then p - 1 else 0) + bit == v * (2 * p) + if bit == 1 then 2 * p - 1 else 0
  {
    MulTwice(v, p);
  }

  lemma FromBinaryAppend(s: string, c: char)
    ensures FromBinary(s + [c]) == 2 * FromBinary(s) + if c == '1' then 1 else 0
  {
    assert (s + [c])[..|s|] == s;
  }

  /** `a` copies of one digit followed by `b` of another. */
  lemma TwoRuns(c: char, a: nat, d: char, b: nat)
    ensures FromBinary(Repeat(c, a) + Repeat(d, b)) ==
            (if c == '1' then Pow2(a) - 1 else 0) * Pow2(b) + if d == '1' then Pow2(b) - 1 else 0
  {
    RepeatConcat(Repeat(c, a), d, b);
    OneRun(c, a);
  }

  lemma OneRun(c: char, a: nat)
    ensures FromBinary(Repeat(c, a)) == if c == '1' then Pow2(a) - 1 else 0
  {
    RepeatConcat("", c, a);
    assert "" + Repeat(c, a) == Repeat(c, a);
    assert FromBinary("") * Pow2(a) == 0;
  }

  lemma HalveMod(x: nat, p: nat)
    requires p > 0
    ensures x % (2 * p) == 2 * ((x / 2) % p) + x % 2
  {
    var q, r := (x / 2) / p, (x / 2) % p;
    assert x / 2 == q * p + r;
    assert 2 * (q * p) == q * (2 * p);
    DivModUnique(x, 2 * p, q, 2 * r + x % 2);
  }

  // ---- Masks ---------------------------------------------------------------------------------------

  lemma AndStep(x: nat, y: nat)
    ensures And(x, y) == 2 * And(x / 2, y / 2) + (x % 2) * (y % 2)
  {
    if x == 0 || y == 0 {
      assert And(x / 2, y / 2) == 0;
    }
  }

  /** Masking with `k` low ones takes the remainder modulo 2^k. */
  lemma {:induction false} AndLow(x: nat, k: nat)
    ensures And(x, Pow2(k) - 1) == x % Pow2(k)
  {
    if k == 0 {
    } else {
      AndLow(x / 2, k - 1);
      AndLowStep(x, Pow2(k - 1));
    }
  }

  lemma {:induction false} AndLowStep(x: nat, p: nat)
    requires p > 0 && And(x / 2, p - 1) == (x / 2) % p
    ensures And(x, 2 * p - 1) == x % (2 * p)
  {
    calc {
      And(x, 2 * p - 1);
      { assert 2 * p - 1 == 2 * (p - 1) + 1; }
      And(x, 2 * (p - 1) + 1);
      { AndOdd(x, p - 1); }
      2 * And(x / 2, p - 1) + x % 2;
      2 * ((x / 2) % p) + x % 2;
      { HalveMod(x, p); }
      x % (2 * p);
    }
  }

  lemma AndOdd(x: nat, y: nat)
    ensures And(x, 2 * y + 1) == 2 * And(x / 2, y) + x % 2
  {
    AndStep(x, 2 * y + 1);
    assert (2 * y + 1) / 2 == y && (2 * y + 1) % 2 == 1;
  }

  /** Masking a number of at most v + k bits with `v` ones above `k` zeros clears its `k` low bits. */
  lemma {:induction false} AndHigh(x: nat, v: nat, k: nat, y: nat)
    requires x < Pow2(v + k) && y == (Pow2(v) - 1) * Pow2(k)
    ensures And(x, y) == x - x % Pow2(k)
  {
    if k == 0 {
      AndLow(x, v);
      DivModUnique(x, Pow2(v), 0, x);
      assert y == Pow2(v) - 1;
    } else {
      assert Pow2(v + k) == 2 * Pow2(v + (k - 1));
      MulTwice(Pow2(v) - 1, Pow2(k - 1));
      AndHigh(x / 2, v, k - 1, y / 2);
      AndStep(x, y);
      HalveMod(x, Pow2(k - 1));
    }
  }

  lemma MulTwice(n: int, p: int)
    ensures n * (2 * p) == 2 * (n * p)
  {
  }

  lemma {:induction false} Pow2Adds(a: nat, b: nat)
    ensures Pow2(a + b) == Pow2(a) * Pow2(b)
  {
    if a == 0 {
    } else {
      Pow2Adds(a - 1, b);
      assert Pow2(a + b) == 2 * Pow2(a - 1 + b);
      MulAssociates(2, Pow2(a - 1), Pow2(b));
    }
  }
}
