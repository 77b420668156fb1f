/** Positional numerals: the arithmetic behind the BaseX block codec. */
module Radix {

  function Pow(b: nat, e: nat): nat {
    if e == 0 then 1 else b * Pow(b, e - 1)
  }

  lemma {:induction false} PowPositive(b: nat, e: nat)
    requires b >= 1
    ensures Pow(b, e) >= 1
  {
    if e > 0 {
      PowPositive(b, e - 1);
    }
  }

  lemma PowStep(b: nat, e: nat)
    requires b >= 2
    ensures Pow(b, e + 1) == b * Pow(b, e)
    ensures Pow(b, e + 1) >= Pow(b, e) + 1
  {
    PowPositive(b, e);
  }

  lemma {:induction false} PowSum(b: nat, d: nat, e: nat)
    ensures Pow(b, d + e) == Pow(b, d) * Pow(b, e)
  {
    if d > 0 {
      PowSum(b, d - 1, e);
      assert b * (Pow(b, d - 1) * Pow(b, e)) == b * Pow(b, d - 1) * Pow(b, e);
    }
  }

  lemma {:induction false} PowMonotone(b: nat, d: nat, e: nat)
    requires b >= 2 && d <= e
    ensures Pow(b, d) <= Pow(b, e)
    ensures d < e ==> Pow(b, d) < Pow(b, e)
    decreases e
  {
    if d < e {
      PowMonotone(b, d, e - 1);
      PowStep(b, e - 1);
    }
  }

  /** The number whose base-`base` digits, most significant first, are `digits`. */
  function Value(digits: seq<nat>, base: nat): nat {
    if digits == [] then 0
    else Value(digits[..|digits| - 1], base) * base + digits[|digits| - 1]
  }

  /** The `len` low-order base-`base` digits of `v`, most significant first. */
  function Digits(v: nat, base: nat, len: nat): (r: seq<nat>)
    requires base >= 2
    ensures |r| == len
    ensures forall i :: 0 <= i < len ==> r[i] < base
    decreases len
  {
    if len == 0 then [] else Digits(v / base, base, len - 1) + [v % base]
  }

  /** The base-256 digits of `v` without leading zeroes. */
  function Minimal(v: nat): (r: seq<nat>)
    ensures forall i :: 0 <= i < |r| ==> r[i] < 256
    decreases v
  {
    if v == 0 then [] else Minimal(v / 256) + [v % 256]
  }

  lemma ValueSnoc(s: seq<nat>, d: nat, base: nat)
    ensures Value(s + [d], base) == Value(s, base) * base + d
  {
    assert (s + [d])[..|s|] == s;
  }

  lemma {:induction false} ValueBound(s: seq<nat>, base: nat)
    requires base >= 1
    requires forall i :: 0 <= i < |s| ==> s[i] < base
    ensures Value(s, base) < Pow(base, |s|)
  {
    if s != [] {
      var t := s[..|s| - 1];
      ValueBound(t, base);
      calc {
        Value(s, base);
      <= (Pow(base, |t|) - 1) * base + base - 1;
      <  base * Pow(base, |t|);
      }
    }
  }

  lemma MulMonotone(a: int, b: int, c: nat)
    requires a <= b
    ensures a * c <= b * c
  {
  }

  lemma DivMod(v: nat, base: nat, q: nat, d: nat)
    requires base >= 1 && q == v / base && d == v % base
    ensures v == q * base + d
  {
  }

  lemma MulCancel(a: int, b: int, c: nat)
    requires a * c < b * c
    ensures a < b
  {
    if b <= a {
      MulMonotone(b, a, c);
    }
  }

  lemma DivBound(v: nat, base: nat, len: nat)
    requires base >= 2 && len > 0 && v < Pow(base, len)
    ensures v / base < Pow(base, len - 1)
  {
    assert v == (v / base) * base + v % base;
    MulCancel(v / base, Pow(base, len - 1), base);
  }

  /** Digits invert Value: every number that fits is the value of its digits. */
  lemma {:induction false} ValueOfDigits(v: nat, base: nat, len: nat)
    requires base >= 2 && v < Pow(base, len)
    ensures Value(Digits(v, base, len), base) == v
    decreases len
  {
    if len > 0 {
      var q, d := v / base, v % base;
      DivBound(v, base, len);
      ValueOfDigits(q, base, len - 1);
      ValueSnoc(Digits(q, base, len - 1), d, base);
      DivMod(v, base, q, d);
    }
  }

  lemma DivModSnoc(q: nat, d: nat, base: nat)
    requires d < base
    ensures (q * base + d) / base == q && (q * base + d) % base == d
  {
    var n := q * base + d;
    assert n == (n / base) * base + n % base;
    MulCancel(q, n / base + 1, base);
    MulCancel(n / base, q + 1, base);
  }

  /** Value inverts Digits: a digit string is recovered from its value and its length. */
  lemma {:induction false} DigitsOfValue(s: seq<nat>, base: nat)
    requires base >= 2
    requires forall i :: 0 <= i < |s| ==> s[i] < base
    ensures Digits(Value(s, base), base, |s|) == s
  {
    if s != [] {
      var t, d := s[..|s| - 1], s[|s| - 1];
      DigitsOfValue(t, base);
      DivModSnoc(Value(t, base), d, base);
      assert s == t + [d];
    }
  }

  lemma {:induction false} DigitsOfZero(base: nat, len: nat)
    requires base >= 2
    ensures forall i :: 0 <= i < len ==> Digits(0, base, len)[i] == 0
    decreases len
  {
    if len > 0 {
      DigitsOfZero(base, len - 1);
    }
  }

  /** Padding the shortest form with zeroes gives the fixed-length form; the shortest form is
      longer than `len` exactly when the number does not fit. */
  lemma {:induction false} MinimalPads(v: nat, len: nat)
    ensures |Minimal(v)| <= len <==> v < Pow(256, len)
    ensures |Minimal(v)| <= len ==> Digits(v, 256, len) == seq(len - |Minimal(v)|, _ => 0) + Minimal(v)
    decreases len
  {
    if len == 0 {
    } else if v == 0 {
      PowPositive(256, len);
      DigitsOfZero(256, len);
    } else {
      MinimalPads(v / 256, len - 1);
      if v < Pow(256, len) {
        DivBound(v, 256, len);
      } else {
        assert v >= 256 * Pow(256, len - 1);
        assert v / 256 >= Pow(256, len - 1);
      }
    }
  }
}
