/** Bytes, machine-width limits and the few sequence helpers that several components share. */
module Bytes {

  type byte = b: int | 0 <= b < 256

  /** The C++ `std::string` of the original: a sequence of bytes, NULs allowed. */
  type Str = seq<byte>

  datatype Option<+T> = None | Some(value: T)

  const OFF_MAX := 0x7FFF_FFFF_FFFF_FFFF      // largest off_t
  const TWO_63 := 0x8000_0000_0000_0000
  const TWO_64 := 0x1_0000_0000_0000_0000
  const TWO_32 := 0x1_0000_0000

  function Min(a: int, b: int): int { if a <= b then a else b }

  function Max(a: int, b: int): int { if a >= b then a else b }

  /** C++ integer division: truncates toward zero. */
  function TruncDiv(a: int, b: nat): int
    requires b > 0
  {
    if a >= 0 then a / b else -((-a) / b)
  }

  /** Conversion of a mathematical integer to `uint64_t`. */
  function ToUnsigned64(x: int): nat { x % TWO_64 }

  /** Conversion of a `uint64_t` value to `int64_t`. */
  function ToSigned64(x: nat): int { if x < TWO_63 then x else x - TWO_64 }

  function Zeros(n: nat): (z: Str)
  {
    seq(n, _ => 0)
  }

  /** `std::string::resize`: cut, or extend with NULs. */
  function Resize(s: Str, n: nat): (r: Str)
    ensures |r| == n
    ensures forall i :: 0 <= i < n ==> r[i] == if i < |s| then s[i] else 0
  {
    if n <= |s| then s[..n] else s + Zeros(n - |s|)
  }

  /** Truncation toward zero, by magnitude and sign. */
  lemma TruncDivLaw(a: int, b: nat)
    requires b > 0
    ensures a >= 0 ==> TruncDiv(a, b) * b <= a < TruncDiv(a, b) * b + b
    ensures a < 0 ==> TruncDiv(a, b) * b - b < a <= TruncDiv(a, b) * b
  {
    var n: nat := if a >= 0 then a else -a;
    DivModLaw(n, b);
    assert TruncDiv(a, b) == (if a >= 0 then n / b else -(n / b));
    assert (-(n / b)) * b == -((n / b) * b);
  }

  /** The conversions keep the value modulo 2^64, each in its own range. */
  lemma ConversionLaws(x: int, u: nat)
    ensures 0 <= ToUnsigned64(x) < 0x1_0000_0000_0000_0000
    ensures (x - ToUnsigned64(x)) % 0x1_0000_0000_0000_0000 == 0
    ensures u < 0x8000_0000_0000_0000 ==> ToSigned64(u) == u
    ensures 0x8000_0000_0000_0000 <= u < 0x1_0000_0000_0000_0000 ==>
              ToSigned64(u) == u - 0x1_0000_0000_0000_0000
  {
  }

  lemma ZerosLaw(n: nat)
    ensures |Zeros(n)| == n && forall i | 0 <= i < n :: Zeros(n)[i] == 0
  {
  }

  lemma DivModLaw(i: nat, c: nat)
    requires c > 0
    ensures i == (i / c) * c + i % c
    ensures 0 <= i % c < c
  {
  }

  /** Quotient and remainder are the only way to write `i` as `k * c + r` with `r < c`. */
  lemma DivModUnique(i: nat, c: nat, k: nat, r: nat)
    requires c > 0 && r < c && i == k * c + r
    ensures i / c == k && i % c == r
  {
    DivModLaw(i, c);
    var q := i / c;
    assert (q - k) * c == q * c - k * c == r - i % c;
    if q > k {
      MulAtLeast(q - k, c);
    } else if q < k {
      MulAtLeast(k - q, c);
    }
  }

  lemma MulAtLeast(a: nat, c: nat)
    requires a >= 1
    ensures a * c >= c
  {
  }

  lemma MulMonotone(a: int, b: int, c: nat)
    requires a <= b
    ensures a * c <= b * c
  {
    assert (b - a) * c >= 0;
    assert (b - a) * c == b * c - a * c;
  }

  // ---- the least element of a set ---------------------------------------------------------

  ghost predicate IsLeast<T(!new)>(x: T, s: set<T>, leq: (T, T) -> bool)
  {
    x in s && forall y | y in s :: leq(x, y)
  }

  lemma LeastExists<T(!new)>(s: set<T>, leq: (T, T) -> bool)
    requires s != {}
    requires forall a, b :: leq(a, b) || leq(b, a)
    requires forall a, b, c :: leq(a, b) && leq(b, c) ==> leq(a, c)
    ensures exists x :: IsLeast(x, s, leq)
  {
    var y :| y in s;
    assert leq(y, y);
    if s == {y} {
      assert IsLeast(y, s, leq);
    } else {
      LeastExists(s - {y}, leq);
      var z :| IsLeast(z, s - {y}, leq);
      assert leq(y, z) || leq(z, y);
      if leq(y, z) {
        forall w | w in s ensures leq(y, w) {
          if w != y { assert leq(z, w); }
        }
        assert IsLeast(y, s, leq);
      } else {
        assert IsLeast(z, s, leq);
      }
    }
  }
}
