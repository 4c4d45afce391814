/** Numbers written as fixed-width digits: a code stream of `k`-bit codes and
    a byte stream are both the big-endian digits of one number, in base
    `2^k` and base `2^8`.  This is the arithmetic behind the bit packing. */
module Positional {
  import opened Common

  /** `2^8`, the base of a byte. */
  lemma Pow2Byte()
    ensures Pow2(8) == 256
  {
    assert Pow2(4) == 16;
  }

  /** Euclidean division by a positive divisor. */
  lemma DivMod(v: nat, p: nat)
    requires p >= 1
    ensures 0 <= v / p && 0 <= v % p < p && v == v / p * p + v % p
  {
  }

  /** A number below the modulus is its own remainder. */
  lemma ModSmall(x: nat, m: nat)
    requires x < m
    ensures x % m == x
  {
    DivModUnique(x, m, 0, x);
  }

  lemma MulLe(a: nat, b: nat, c: nat)
    requires a <= b
    ensures a * c <= b * c
  {
  }

  /** The unique quotient and remainder: `n == q * m + r` with `0 <= r < m`. */
  lemma DivModUnique(n: int, m: int, q: int, r: int)
    requires m > 0 && 0 <= r < m && n == q * m + r
    ensures n / m == q && n % m == r
  {
    var q0, r0 := n / m, n % m;
    assert (q - q0) * m == q * m - q0 * m;
    assert (q0 - q) * m == q0 * m - q * m;
    if q0 < q {
      MulLe(1, q - q0, m);
    } else if q0 > q {
      MulLe(1, q0 - q, m);
    }
  }

  lemma MulAssoc(a: int, b: int, c: int)
    ensures a * (b * c) == (a * b) * c
  {
  }

  lemma MulPred(n: int, k: int)
    ensures (n - 1) * k + k == n * k
  {
  }

  lemma MulNat(n: nat, k: nat)
    ensures n * k >= 0
  {
  }

  lemma Pow2Sum(a: nat, b: nat, c: nat)
    requires a + b == c
    ensures Pow2(c) == Pow2(a) * Pow2(b)
  {
    Pow2Add(a, b);
  }

  /** `2^(n * k) == 2^((n - 1) * k) * 2^k`. */
  lemma Pow2Step(n: nat, k: nat)
    requires n >= 1
    ensures Pow2(n * k) == Pow2((n - 1) * k) * Pow2(k)
  {
    var m := n - 1;
    MulNat(m, k);
    Pow2Succ(m, k);
  }

  /** `2^((m + 1) * k) == 2^(m * k) * 2^k`. */
  lemma Pow2Succ(m: nat, k: nat)
    ensures (m + 1) * k == m * k + k
    ensures Pow2((m + 1) * k) == Pow2(m * k) * Pow2(k)
  {
    MulNat(m, k);
    Pow2Add(m * k, k);
  }

  /** Appending the `k`-bit digit `x` to a `bits`-bit buffer whose digits
      above sit in `hi`. */
  lemma JoinLow(hi: nat, p: nat, buffer: nat, kk: nat, x: nat)
    requires buffer < p && x < kk
    ensures buffer * kk + x < p * kk
    ensures (hi * p + buffer) * kk + x == hi * (p * kk) + (buffer * kk + x)
  {
    MulLe(buffer + 1, p, kk);
    assert (hi * p + buffer) * kk == (hi * p) * kk + buffer * kk;
    MulAssoc(hi, p, kk);
  }

  /** Splitting the top digit `buffer / p` of a buffer below `p * kk` off. */
  lemma SplitTop(hi: nat, p: nat, buffer: nat, kk: nat)
    requires p >= 1 && kk >= 1 && buffer < p * kk
    ensures buffer / p < kk
    ensures hi * (p * kk) + buffer == (hi * kk + buffer / p) * p + buffer % p
  {
    DivMod(buffer, p);
    var q, r := buffer / p, buffer % p;
    if q >= kk {
      MulLe(kk, q, p);
    }
    assert (hi * kk + q) * p == hi * kk * p + q * p;
    assert hi * kk * p == hi * (p * kk);
  }

  /** `(x << k) | y` for `y < 2^k` stays below `2^(bits + k)` when `x` is
      below `2^bits`, and appending to a buffer below the digits `hi` is
      appending to the whole number. */
  lemma ShiftIn(hi: nat, bits: nat, buffer: nat, k: nat, x: nat)
    requires buffer < Pow2(bits) && x < Pow2(k)
    ensures buffer * Pow2(k) + x < Pow2(bits + k)
    ensures (hi * Pow2(bits) + buffer) * Pow2(k) + x == hi * Pow2(bits + k) + (buffer * Pow2(k) + x)
  {
    Pow2Add(bits, k);
    JoinLow(hi, Pow2(bits), buffer, Pow2(k), x);
  }

  /** The number the digits `ds`, each `k` bits wide, spell, most significant
      first. */
  function Value(ds: seq<nat>, k: nat): (r: nat)
    decreases |ds|
  {
    if ds == [] then 0 else Value(ds[..|ds| - 1], k) * Pow2(k) + ds[|ds| - 1]
  }

  /** The low `n` digits of `v` in base `2^k`, most significant first. */
  function Digits(v: nat, n: nat, k: nat): (ds: seq<nat>)
    ensures |ds| == n && AllBelow(ds, Pow2(k))
  {
    if n == 0 then []
    else
      DivMod(v, Pow2(k));
      var d := Digits(v / Pow2(k), n - 1, k);
      assert forall i :: 0 <= i < |d| ==> (d + [v % Pow2(k)])[i] == d[i];
      d + [v % Pow2(k)]
  }

  /** `n` zero digits. */
  function Zeros(n: nat): (z: seq<nat>)
    ensures |z| == n && forall i :: 0 <= i < n ==> z[i] == 0
  {
    seq(n, i => 0)
  }

  lemma ValueSnoc(ds: seq<nat>, k: nat, x: nat)
    ensures Value(ds + [x], k) == Value(ds, k) * Pow2(k) + x
  {
    assert (ds + [x])[..|ds|] == ds;
  }

  /** A number spelled by the digits `ds` above a `bits + k`-bit buffer,
      after moving the buffer's top `k` bits into a new last digit. */
  lemma TopDigit(ds: seq<nat>, k: nat, bits: nat, buffer: nat, total: nat)
    requires Value(ds, k) * Pow2(bits + k) + buffer == total && buffer < Pow2(bits + k)
    ensures 0 <= buffer / Pow2(bits) < Pow2(k) && 0 <= buffer % Pow2(bits) < Pow2(bits)
    ensures Value(ds + [buffer / Pow2(bits)], k) * Pow2(bits) + buffer % Pow2(bits) == total
  {
    var p := Pow2(bits);
    DivMod(buffer, p);
    Pow2Add(bits, k);
    SplitTop(Value(ds, k), p, buffer, Pow2(k));
    ValueSnoc(ds, k, buffer / p);
  }

  /** `n` digits of `k` bits spell a number below `2^(n * k)`. */
  lemma {:induction false} ValueBound(ds: seq<nat>, k: nat)
    requires AllBelow(ds, Pow2(k))
    ensures Value(ds, k) < Pow2(|ds| * k)
    decreases |ds|
  {
    if ds != [] {
      var init := ds[..|ds| - 1];
      ValueBound(init, k);
      Pow2Step(|ds|, k);
      JoinLow(0, Pow2(|init| * k), Value(init, k), Pow2(k), ds[|ds| - 1]);
    }
  }

  /** Reading digits back from their value gives the digits. */
  lemma {:induction false} DigitsOfValue(ds: seq<nat>, k: nat)
    requires AllBelow(ds, Pow2(k))
    ensures Digits(Value(ds, k), |ds|, k) == ds
    decreases |ds|
  {
    if ds != [] {
      var init, x := ds[..|ds| - 1], ds[|ds| - 1];
      DivModUnique(Value(ds, k), Pow2(k), Value(init, k), x);
      DigitsOfValue(init, k);
      assert ds == init + [x];
    }
  }

  /** `(v >> k) % 2^m`, shifted back, with the low `k` bits is `v % 2^(m + k)`. */
  lemma ModSplit(v: nat, a: nat, b: nat)
    requires a > 0 && b > 0
    ensures (v / a % b) * a + v % a == v % (b * a)
  {
    var q, r := v / a, v % a;
    var q1, q0 := q / b, q % b;
    assert v == q * a + r;
    assert q == q1 * b + q0;
    assert v == q1 * (a * b) + (q0 * a + r) by {
      assert q * a == (q1 * b + q0) * a == q1 * (a * b) + q0 * a;
    }
    MulLe(q0 + 1, b, a);
    assert a * b == b * a;
    DivModUnique(v, b * a, q1, q0 * a + r);
  }

  /** The digits of `v` spell `v` modulo `2^(n * k)`. */
  lemma {:induction false} ValueOfDigits(v: nat, n: nat, k: nat)
    ensures Value(Digits(v, n, k), k) == v % Pow2(n * k)
    decreases n
  {
    if n > 0 {
      MulNat(n - 1, k);
      var a, b := Pow2(k), Pow2((n - 1) * k);
      DivMod(v, a);
      var q := v / a;
      var d := Digits(q, n - 1, k);
      ValueOfDigits(q, n - 1, k);
      ValueSnoc(d, k, v % a);
      assert Digits(v, n, k) == d + [v % a];
      ModSplit(v, a, b);
      Pow2Step(n, k);
    }
  }

  /** A number below `2^(m * k)` is spelled exactly by its `m` digits. */
  lemma DigitsExact(w: nat, m: nat, k: nat)
    requires w < Pow2(m * k)
    ensures Value(Digits(w, m, k), k) == w
  {
    MulNat(m, k);
    ValueOfDigits(w, m, k);
    ModSmall(w, Pow2(m * k));
  }

  /** Shifting a number up by `a + r` bits and down by `r` bits. */
  lemma ShiftDown(v: nat, a: nat, r: nat, s: nat)
    requires a + r == s
    ensures v * Pow2(s) / Pow2(r) == v * Pow2(a)
  {
    Pow2Sum(a, r, s);
    MulAssoc(v, Pow2(a), Pow2(r));
    DivModUnique(v * Pow2(s), Pow2(r), v * Pow2(a), 0);
  }

  /** Appending `z` zero digits to a number is multiplying it by `2^(z * k)`. */
  lemma {:induction false} DigitsShift(v: nat, n: nat, z: nat, k: nat)
    ensures Digits(v * Pow2(z * k), n + z, k) == Digits(v, n, k) + Zeros(z)
    decreases z
  {
    if z > 0 {
      var w := v * Pow2((z - 1) * k);
      Pow2Step(z, k);
      MulAssoc(v, Pow2((z - 1) * k), Pow2(k));
      DivModUnique(w * Pow2(k), Pow2(k), w, 0);
      DigitsShift(v, n, z - 1, k);
      assert Zeros(z - 1) + [0] == Zeros(z);
    }
  }
}
