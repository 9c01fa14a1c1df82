/** Python's bitwise operators `&`, `|` and `^` on non-negative integers, defined
    bit by bit from the least significant end, with the facts the frame codec of
    the websocket server relies on: masking off low bits, testing one bit, setting
    a high bit, and exclusive-or undoing itself. */
module Bits {
  /** a & b */
  function BitAnd(a: nat, b: nat): nat
    decreases a + b
  {
    if a == 0 || b == 0 then 0
    else 2 * BitAnd(a / 2, b / 2) + (if a % 2 == 1 && b % 2 == 1 then 1 else 0)
  }
  /** a | b */
  function BitOr(a: nat, b: nat): nat
    decreases a + b
  {
    if a == 0 then b else if b == 0 then a
    else 2 * BitOr(a / 2, b / 2) + (if a % 2 == 1 || b % 2 == 1 then 1 else 0)
  }
  /** a ^ b */
  function BitXor(a: nat, b: nat): nat
    decreases a + b
  {
    if a == 0 then b else if b == 0 then a
    else 2 * BitXor(a / 2, b / 2) + (if a % 2 != b % 2 then 1 else 0)
  }
  function Pow2(k: nat): (p: nat) ensures p >= 1 { if k == 0 then 1 else 2 * Pow2(k - 1) }

  lemma ModHalf(b: nat, p: nat)
    requires p > 0
    ensures b % (2 * p) == 2 * ((b / 2) % p) + b % 2
    ensures b / (2 * p) == (b / 2) / p
  {
    var q, r := b / 2, b % 2;
    var t, s := q / p, q % p;
    assert q == p * t + s;
    assert b == (2 * p) * t + (2 * s + r);
    assert 0 <= 2 * s + r < 2 * p;
    DivModUnique(b, 2 * p, t, 2 * s + r);
  }

  lemma MulAtLeast(m: int, d: int)
    requires m > 0 && d >= 1
    ensures m * d >= m
  {
    assert m * d == m + m * (d - 1);
    assert m * (d - 1) >= 0;
  }

  lemma DivModUnique(b: int, m: int, t: int, s: int)
    requires m > 0 && 0 <= s < m && b == m * t + s
    ensures b / m == t && b % m == s
  {
    var t', s' := b / m, b % m;
    assert b == m * t' + s';
    assert m * (t' - t) == s - s' by {
      assert m * (t' - t) == m * t' - m * t;
    }
    if t' > t {
      MulAtLeast(m, t' - t);
    } else if t' < t {
      MulAtLeast(m, t - t');
    }
  }

  lemma AndOddStep(b: nat, p: nat)
    requires b > 0 && p > 0
    ensures BitAnd(b, 2 * p - 1) == 2 * BitAnd(b / 2, p - 1) + b % 2
  {
    var m := 2 * p - 1;
    assert m != 0 && m % 2 == 1 && m / 2 == p - 1;
  }

  /** b & (2^k - 1) keeps the k low bits. */
  lemma {:induction false} AndLowMask(b: nat, k: nat)
    ensures BitAnd(b, Pow2(k) - 1) == b % Pow2(k)
  {
    if k == 0 {
      assert Pow2(k) == 1;
    } else if b > 0 {
      var p := Pow2(k - 1);
      assert Pow2(k) == 2 * p;
      AndOddStep(b, p);
      AndLowMask(b / 2, k - 1);
      ModHalf(b, p);
    } else {
      DivModUnique(b, Pow2(k), 0, 0);
    }
  }

  /** b & 2^k isolates bit k. */
  lemma {:induction false} AndBit(b: nat, k: nat)
    ensures BitAnd(b, Pow2(k)) == ((b / Pow2(k)) % 2) * Pow2(k)
  {
    if b > 0 {
      if k == 0 {
        assert BitAnd(b, 1) == 2 * BitAnd(b / 2, 0) + b % 2;
      } else {
        var p := Pow2(k - 1);
        assert Pow2(k) == 2 * p;
        assert (2 * p) % 2 == 0 && (2 * p) / 2 == p;
        assert BitAnd(b, 2 * p) == 2 * BitAnd(b / 2, p);
        AndBit(b / 2, k - 1);
        ModHalf(b, p);
        var x := ((b / 2) / p) % 2;
        assert BitAnd(b / 2, p) == x * p;
        assert 2 * (x * p) == x * (2 * p);
      }
    } else {
      DivModUnique(0, Pow2(k), 0, 0);
    }
  }

  lemma {:induction false} XorZero(a: nat, b: nat)
    requires BitXor(a, b) == 0
    ensures a == b
    decreases a + b
  {
    if a != 0 && b != 0 {
      XorZero(a / 2, b / 2);
    }
  }

  lemma {:induction false} XorSelf(a: nat)
    ensures BitXor(a, a) == 0
  {
    if a != 0 {
      XorSelf(a / 2);
    }
  }

  /** (a ^ m) ^ m == a */
  lemma {:induction false} XorXor(a: nat, m: nat)
    ensures BitXor(BitXor(a, m), m) == a
    decreases a + m
  {
    if a == 0 {
      XorSelf(m);
    } else if m != 0 {
      var x := BitXor(a, m);
      var y := BitXor(a / 2, m / 2);
      assert x == 2 * y + (if a % 2 != m % 2 then 1 else 0);
      if x == 0 {
        XorZero(a, m);
      } else {
        assert x / 2 == y && x % 2 == (if a % 2 != m % 2 then 1 else 0);
        assert BitXor(x, m) == 2 * BitXor(y, m / 2) + (if x % 2 != m % 2 then 1 else 0);
        XorXor(a / 2, m / 2);
        assert BitXor(y, m / 2) == a / 2;
        assert a == 2 * (a / 2) + a % 2;
      }
    }
  }

  /** ^ of two k-bit numbers is a k-bit number. */
  lemma {:induction false} XorBelow(a: nat, b: nat, k: nat)
    requires a < Pow2(k) && b < Pow2(k)
    ensures BitXor(a, b) < Pow2(k)
    decreases a + b
  {
    if a != 0 && b != 0 {
      XorBelow(a / 2, b / 2, k - 1);
    }
  }

  /** Setting a bit above every bit of op adds it. */
  lemma {:induction false} OrDisjointHigh(op: nat, k: nat)
    requires op < Pow2(k)
    ensures BitOr(Pow2(k), op) == Pow2(k) + op
    decreases op
  {
    if op != 0 {
      OrDisjointHigh(op / 2, k - 1);
    }
  }
}
