/** Modular powers and the key exchange of lualib-src/lua-crypt.c, in 64-bit arithmetic. */
module DiffieHellman {
  import opened Common

  const P: nat := 0xffff_ffff_ffff_ffc5
  const WORD: nat := 0x1_0000_0000_0000_0000
  const G: nat := 5

  /** The modulus lies 59 below the first number of 65 bits. */
  lemma Modulus()
    ensures P + 59 == 0x1_0000_0000 * 0x1_0000_0000
  {}

  function Pow(a: nat, b: nat): nat {
    if b == 0 then 1 else a * Pow(a, b - 1)
  }

  /** What 64-bit arithmetic makes of a result. */
  function Wrap(x: int): (r: nat)
    ensures r < WORD
  {
    x % WORD
  }

  // ----- Congruence -----

  /** `x` and `y` differ by a multiple of the prime. */
  ghost predicate Same(x: int, y: int) { exists k: int :: Multiple(x, y, k) }

  predicate Multiple(x: int, y: int, k: int) { x == y + k * P }

  lemma SameSelf(x: int)
    ensures Same(x, x)
  {
    assert Multiple(x, x, 0);
  }

  lemma SameTrans(x: int, y: int, z: int)
    requires Same(x, y) && Same(y, z)
    ensures Same(x, z)
  {
    var j :| Multiple(x, y, j);
    var k :| Multiple(y, z, k);
    assert Multiple(x, z, j + k);
  }

  lemma SameProduct(x: int, y: int, m: int)
    requires Same(x, y)
    ensures Same(m * x, m * y)
  {
    var k :| Multiple(x, y, k);
    assert m * (k * P) == m * k * P;
    assert Multiple(m * x, m * y, m * k);
  }

  lemma SameMod(x: int)
    ensures Same(x, x % P)
  {
    assert Multiple(x, x % P, x / P);
  }

  lemma SameUnique(x: int, y: int)
    requires Same(x, y) && 0 <= y < P
    ensures x % P == y
  {
    var k :| Multiple(x, y, k);
    assert x == P * (x / P) + x % P;
    assert (x / P - k) * P == y - x % P;
  }

  // ----- Multiplication -----

  /** `mul_mod_p`: doubling and adding; no step leaves 64 bits in effect. */
  method MulModP(a0: nat, b0: nat) returns (m: nat)
    requires a0 <= P && b0 < WORD
    ensures m == a0 * b0 % P
  {
    hide Same, Wrap;
    m := 0;
    var a: nat, b: nat := a0, b0;
    SameSelf(a0 * b0);
    assert 0 + a0 * b0 == a0 * b0;
    while b != 0
      invariant a <= P && m < P && b < WORD && Same(a0 * b0, m + a * b)
      decreases b
    {
      ghost var (m1, a1) := (m, a);
      AddInWord(m, a);
      DoubleInWord(a);
      if b % 2 == 1 {
        var t := Wrap(P - a);
        if m >= t {
          m := Wrap(m - t);
        } else {
          m := Wrap(m + a);
        }
      }
      if a >= Wrap(P - a) {
        a := Wrap(Wrap(a * 2) - P);
      } else {
        a := Wrap(a * 2);
      }
      DoubleAdd(m1, a1, b, m, a);
      SameTrans(a0 * b0, m1 + a1 * b, m + a * (b / 2));
      b := b / 2;
    }
    assert m + a * 0 == m;
    SameUnique(a0 * b0, m);
  }

  /** Adding modulo the prime without overflow. */
  lemma AddInWord(m: nat, a: nat)
    requires m < P && a <= P
    ensures var t := Wrap(P - a);
            if m >= t then Wrap(m - t) == m + a - P < P else Wrap(m + a) == m + a < P
  {}

  /** Doubling modulo the prime; the intermediate overflow cancels out. */
  lemma DoubleInWord(a: nat)
    requires a <= P
    ensures if a >= Wrap(P - a) then Wrap(Wrap(a * 2) - P) == 2 * a - P <= P else Wrap(a * 2) == 2 * a < P
  {}

  /** One bit of the multiplier. */
  lemma DoubleAdd(m: nat, a: nat, b: nat, m': nat, a': nat)
    requires b % 2 == 0 ==> m' == m
    requires b % 2 == 1 ==> m' == m + a || m' == m + a - P
    requires a' == 2 * a || a' == 2 * a - P
    ensures Same(m + a * b, m' + a' * (b / 2))
  {
    var (h, x) := (b / 2, a * (b / 2));
    var rest := m' + a' * h;
    HalfProduct(a, b);
    DoubleProduct(a, a', h);
    if a' == 2 * a {
      assert Multiple(m + a * b, rest, if b % 2 == 1 && m' != m + a then 1 else 0);
    } else {
      assert Multiple(m + a * b, rest, if b % 2 == 1 && m' != m + a then h + 1 else h);
    }
  }

  lemma HalfProduct(a: nat, b: nat)
    ensures a * b == 2 * (a * (b / 2)) + (if b % 2 == 1 then a else 0)
  {
    var h := b / 2;
    assert b == h + h + b % 2;
    assert a * (h + h + b % 2) == a * h + a * h + a * (b % 2);
  }

  lemma DoubleProduct(a: nat, a': nat, h: nat)
    ensures a' == 2 * a ==> a' * h == 2 * (a * h)
    ensures a' == 2 * a - P ==> a' * h == 2 * (a * h) - h * P
  {
    if a' == 2 * a {
      assert (a + a) * h == a * h + a * h;
    } else if a' == 2 * a - P {
      assert (a + a - P) * h == a * h + a * h - P * h;
    }
  }

  // ----- Powers -----

  lemma {:induction false} PowAdd(a: nat, m: nat, n: nat)
    ensures Pow(a, m + n) == Pow(a, m) * Pow(a, n)
  {
    if m > 0 {
      PowAdd(a, m - 1, n);
      assert a * (Pow(a, m - 1) * Pow(a, n)) == a * Pow(a, m - 1) * Pow(a, n);
    }
  }

  lemma {:induction false} PowTimes(a: nat, m: nat, n: nat)
    ensures Pow(Pow(a, m), n) == Pow(a, m * n)
  {
    if n > 0 {
      PowTimes(a, m, n - 1);
      PowAdd(a, m, m * (n - 1));
      assert m + m * (n - 1) == m * n;
    }
  }

  /** Powers of congruent numbers are congruent. */
  lemma {:induction false} SamePow(x: nat, y: nat, n: nat)
    requires Same(x, y)
    ensures Same(Pow(x, n), Pow(y, n))
  {
    hide Same;
    if n == 0 {
      SameSelf(1);
    } else {
      SamePow(x, y, n - 1);
      SameProduct(Pow(x, n - 1), Pow(y, n - 1), x);
      SameProduct(x, y, Pow(y, n - 1));
      assert Pow(y, n - 1) * x == x * Pow(y, n - 1) && Pow(y, n - 1) * y == y * Pow(y, n - 1);
      SameTrans(Pow(x, n), x * Pow(y, n - 1), Pow(y, n));
    }
  }

  lemma ModProduct(x: nat, y: nat)
    ensures (x % P) * y % P == x * y % P
  {
    hide Same;
    SameMod(x);
    SameProduct(x, x % P, y);
    assert y * x == x * y && y * (x % P) == (x % P) * y;
    SameMod((x % P) * y);
    SameTrans(x * y, (x % P) * y, (x % P) * y % P);
    SameUnique(x * y, (x % P) * y % P);
  }

  /** `pow_mod_p`, where it returns: the power modulo the prime, but for the prime itself to the first power, which
      stays as it is. */
  method PowModP(a: nat, b: nat) returns (r: nat)
    requires a <= P && 1 <= b < WORD
    ensures r == if b == 1 then a else Pow(a, b) % P
    ensures r <= P
    decreases b
  {
    if b == 1 {
      return a;
    }
    var t := PowModP(a, b / 2);
    HalfPower(a, b, t);
    var s := MulModP(t, t);
    r := s;
    if b % 2 == 1 {
      r := MulModP(s, a);
    }
  }

  lemma PowOne(a: nat)
    ensures Pow(a, 1) == a
  {
    assert Pow(a, 1) == a * Pow(a, 0);
  }

  /** Squaring half a power, once more times the base if the exponent is odd. */
  lemma HalfPower(a: nat, b: nat, t: nat)
    requires b >= 2 && t == if b / 2 == 1 then a else Pow(a, b / 2) % P
    ensures b % 2 == 0 ==> t * t % P == Pow(a, b) % P
    ensures b % 2 == 1 ==> (t * t % P) * a % P == Pow(a, b) % P
  {
    var (h, q) := (b / 2, Pow(a, b / 2));
    PowOne(a);
    PowAdd(a, h, h);
    assert t * t % P == q * q % P by {
      ModProduct(q, q);
      if h > 1 {
        ModProduct(q, t);
        assert q * (q % P) == (q % P) * q;
      }
    }
    if b % 2 == 1 {
      PowAdd(a, h + h, 1);
      ModProduct(q * q, a);
    }
  }

  // ----- The recursion as written -----

  /** The exponent after `n` nested calls. */
  function Halved(b: nat, n: nat): nat {
    if n == 0 then b else Halved(b, n - 1) / 2
  }

  /** What `pow_mod_p` returns within `n` nested calls, if it does. */
  function Eval(a: nat, b: nat, n: nat): Option<nat>
    decreases n
  {
    if b == 1 then Some(a)
    else if n == 0 then None
    else
      var t := Eval(a, b / 2, n - 1);
      if t.None? then None
      else
        var s := t.value * t.value % P;
        Some(if b % 2 == 1 then s * a % P else s)
  }

  lemma {:induction false} HalvedShift(b: nat, n: nat)
    ensures Halved(b / 2, n) == Halved(b, n + 1)
  {
    if n > 0 {
      HalvedShift(b, n - 1);
    }
  }

  /** The exponent 0 stays 0, and never becomes 1. */
  lemma {:induction false} ZeroStays(n: nat)
    ensures Halved(0, n) == 0
  {
    if n > 0 {
      ZeroStays(n - 1);
    }
  }

  /** Every other exponent becomes 1. */
  lemma {:induction false} BecomesOne(b: nat) returns (n: nat)
    requires b >= 1
    ensures Halved(b, n) == 1
  {
    if b == 1 {
      n := 0;
    } else {
      var m := BecomesOne(b / 2);
      HalvedShift(b, m);
      n := m + 1;
    }
  }

  /** The recursion returns within `n` calls if and only if the exponent has become 1 by then. */
  lemma {:induction false} EvalReturns(a: nat, b: nat, n: nat)
    ensures Eval(a, b, n).Some? <==> exists k: nat :: k <= n && Halved(b, k) == 1
    decreases n
  {
    if b == 1 {
      assert Halved(b, 0) == 1;
    } else if n > 0 {
      EvalReturns(a, b / 2, n - 1);
      if k: nat :| k <= n - 1 && Halved(b / 2, k) == 1 {
        HalvedShift(b, k);
        assert Halved(b, k + 1) == 1;
      }
      if k: nat :| k <= n && Halved(b, k) == 1 {
        assert k > 0;
        HalvedShift(b, k - 1);
        assert Halved(b / 2, k - 1) == 1;
      }
    }
  }

  /** **The exact domain**: `pow_mod_p` reaches its base case if and only if the exponent is not 0. */
  lemma ReturnsIff(a: nat, b: nat)
    ensures (exists n: nat :: Eval(a, b, n).Some?) <==> b >= 1
  {
    if b >= 1 {
      var n := BecomesOne(b);
      EvalReturns(a, b, n);
    } else {
      forall n: nat
        ensures Eval(a, b, n).None?
      {
        EvalReturns(a, b, n);
        forall k: nat | k <= n
          ensures Halved(b, k) != 1
        {
          ZeroStays(k);
        }
      }
    }
  }

  /** What it then returns is the power, but for the prime to the first power. */
  lemma {:induction false} EvalIs(a: nat, b: nat, n: nat)
    requires Eval(a, b, n).Some? && b >= 1
    ensures Eval(a, b, n).value == if b == 1 then a else Pow(a, b) % P
    decreases n
  {
    if b > 1 {
      EvalIs(a, b / 2, n - 1);
      HalfPower(a, b, Eval(a, b / 2, n - 1).value);
    }
  }

  /** The base as `powmodp` passes it on. */
  function Reduced(a: nat): nat { if a > P then a % P else a }

  /** `powmodp`, for every exponent: it does not return for 0, and meets its specification for all others if and only
      if it is not asked for the prime to the first power. */
  method PowMod(a: nat, b: nat) returns (r: Option<nat>)
    requires a < WORD && b < WORD
    ensures r.None? <==> forall n: nat :: Eval(Reduced(a), b, n).None?
    ensures r.None? <==> b == 0
    ensures r.Some? ==> (r.value == Pow(a, b) % P <==> !(a == P && b == 1))
    ensures r.Some? && a == P && b == 1 ==> r.value == P
    ensures r.Some? ==> r.value <= P
  {
    PowOne(a);
    var c := a;
    if a > P {
      c := a % P;
    }
    ReturnsIff(c, b);
    if b == 0 {
      return None;
    }
    var p := PowModP(c, b);
    PowReduced(a, c, b);
    r := Some(p);
  }

  lemma PowReduced(a: nat, c: nat, b: nat)
    requires a < WORD && c == Reduced(a)
    ensures Pow(c, b) % P == Pow(a, b) % P
  {
    hide Same;
    if a > P {
      SameMod(a);
      SamePow(a, c, b);
      SameMod(Pow(c, b));
      SameTrans(Pow(a, b), Pow(c, b), Pow(c, b) % P);
      SameUnique(Pow(a, b), Pow(c, b) % P);
    }
  }

  // ----- The exchange -----

  function Public(x: nat): nat { Pow(G, x) % P }

  /** **Both sides agree** on the secret. */
  lemma SecretsAgree(x: nat, y: nat)
    ensures Pow(Public(x), y) % P == Pow(Public(y), x) % P == Pow(G, x * y) % P
  {
    SecretIs(x, y);
    SecretIs(y, x);
    assert x * y == y * x;
  }

  lemma SecretIs(x: nat, y: nat)
    ensures Pow(Public(x), y) % P == Pow(G, x * y) % P
  {
    hide Same;
    SameMod(Pow(G, x));
    SamePow(Pow(G, x), Public(x), y);
    PowTimes(G, x, y);
    SameMod(Pow(Public(x), y));
    SameTrans(Pow(G, x * y), Pow(Public(x), y), Pow(Public(x), y) % P);
    SameUnique(Pow(G, x * y), Pow(Public(x), y) % P);
  }

  /** `ldhexchange` and `ldhsecret`, for both sides: they agree unless a key is zero, and then one does not return. */
  method Exchange(x: nat, y: nat) returns (sx: Option<nat>, sy: Option<nat>)
    requires x < WORD && y < WORD
    ensures x >= 1 && y >= 1 ==> sx == sy == Some(Pow(G, x * y) % P)
    ensures x == 0 || y == 0 ==> sx == sy == None
  {
    var px := PowMod(G, x);
    var py := PowMod(G, y);
    if px.None? || py.None? {
      return None, None;
    }
    sx := PowMod(py.value, x);
    sy := PowMod(px.value, y);
    SecretsAgree(x, y);
  }
}
