/** Block lengths of the BaseX codec (encoding/basex/encoding.go), as exact integer bounds. */
module BasexLengths {
  import opened Radix

  /** The least C >= c with v <= base^C. */
  function LeastExponent(base: nat, v: nat, c: nat): (r: nat)
    requires base >= 2
    ensures r >= c && v <= Pow(base, r)
    ensures r == c || Pow(base, r - 1) < v
    decreases v - Pow(base, c)
  {
    PowStep(base, c);
    if v <= Pow(base, c) then c else LeastExponent(base, v, c + 1)
  }

  /** The greatest B >= b with 256^B <= v. */
  function GreatestExponent(v: nat, b: nat): (r: nat)
    requires Pow(256, b) <= v
    ensures r >= b && Pow(256, r) <= v < Pow(256, r + 1)
    decreases v - Pow(256, b)
  {
    PowStep(256, b);
    if Pow(256, b + 1) <= v then GreatestExponent(v, b + 1) else b
  }

  /** Characters needed for a block of `n` bytes: the least C with 256^n <= base^C. */
  function BlockChars(base: nat, n: nat): (c: nat)
    requires base >= 2
    ensures Pow(256, n) <= Pow(base, c)
    ensures c > 0 ==> Pow(base, c - 1) < Pow(256, n)
  {
    LeastExponent(base, Pow(256, n), 0)
  }

  /** Bytes carried by a block of `c` characters: the greatest B with 256^B <= base^c. */
  function BlockBytes(base: nat, c: nat): (n: nat)
    requires base >= 2
    ensures Pow(256, n) <= Pow(base, c) < Pow(256, n + 1)
  {
    PowPositive(base, c);
    GreatestExponent(Pow(base, c), 0)
  }

  lemma BlockBytesUnique(base: nat, c: nat, n: nat)
    requires base >= 2 && Pow(256, n) <= Pow(base, c) < Pow(256, n + 1)
    ensures BlockBytes(base, c) == n
  {
    var b := BlockBytes(base, c);
    if b < n {
      PowMonotone(256, b + 1, n);
    } else if n < b {
      PowMonotone(256, n + 1, b);
    }
  }

  lemma BlockCharsUnique(base: nat, n: nat, c: nat)
    requires base >= 2 && Pow(256, n) <= Pow(base, c) && (c > 0 ==> Pow(base, c - 1) < Pow(256, n))
    ensures BlockChars(base, n) == c
  {
    var k := BlockChars(base, n);
    if k < c {
      PowMonotone(base, k, c - 1);
    } else if c < k {
      PowMonotone(base, c, k - 1);
    }
  }

  /** Since base <= 256, the characters of an n-byte block cannot carry n + 1 bytes. */
  lemma BlockCharsTight(base: nat, n: nat)
    requires 2 <= base <= 256
    ensures Pow(base, BlockChars(base, n)) < Pow(256, n + 1)
  {
    var c := BlockChars(base, n);
    PowPositive(256, n);
    if c > 0 {
      MulMonotone(base, 256, Pow(base, c - 1));
    }
  }

  /** The byte length survives a round trip through the character length. */
  lemma BlockBytesOfChars(base: nat, n: nat)
    requires 2 <= base <= 256
    ensures BlockBytes(base, BlockChars(base, n)) == n
  {
    BlockCharsTight(base, n);
    BlockBytesUnique(base, BlockChars(base, n), n);
  }

  lemma {:induction false} BlockCharsMonotone(base: nat, m: nat, n: nat)
    requires 2 <= base <= 256 && m < n
    ensures BlockChars(base, m) < BlockChars(base, n)
  {
    BlockCharsTight(base, m);
    PowMonotone(256, m + 1, n);
    if BlockChars(base, n) <= BlockChars(base, m) {
      PowMonotone(base, BlockChars(base, n), BlockChars(base, m));
    }
  }

  lemma BlockBytesMonotone(base: nat, c: nat, d: nat)
    requires base >= 2 && c <= d
    ensures BlockBytes(base, c) <= BlockBytes(base, d)
  {
    PowMonotone(base, c, d);
    var m, n := BlockBytes(base, c), BlockBytes(base, d);
    if n < m {
      PowMonotone(256, n + 1, m);
    }
  }

  /** Bytes never outnumber the characters that carry them. */
  lemma {:induction false} BlockBytesAtMostChars(base: nat, c: nat)
    requires 2 <= base <= 256
    ensures BlockBytes(base, c) <= c
  {
    PowLeBase(base, c);
    var n := BlockBytes(base, c);
    if c < n {
      PowMonotone(256, c, n);
    }
  }

  lemma {:induction false} PowLeBase(base: nat, c: nat)
    requires 2 <= base <= 256
    ensures Pow(base, c) <= Pow(256, c)
  {
    if c > 0 {
      PowLeBase(base, c - 1);
      calc {
        base * Pow(base, c - 1);
      <= { MulMonotone(base, 256, Pow(base, c - 1)); }
        256 * Pow(base, c - 1);
      }
    }
  }

  /** A character length is minimal for the bytes it carries exactly when dropping a character
      loses a byte. */
  lemma MinimalLength(base: nat, c: nat)
    requires 2 <= base <= 256 && c > 0
    ensures BlockBytes(base, c) != BlockBytes(base, c - 1)
       <==> c == BlockChars(base, BlockBytes(base, c))
    ensures (exists n :: c == BlockChars(base, n)) <==> c == BlockChars(base, BlockBytes(base, c))
  {
    var n, m := BlockBytes(base, c), BlockBytes(base, c - 1);
    BlockBytesMonotone(base, c - 1, c);
    if m < n {
      PowMonotone(256, m + 1, n);
      BlockCharsUnique(base, n, c);
    } else {
      PowMonotone(256, n, m);
    }
    forall k | c == BlockChars(base, k) ensures c == BlockChars(base, BlockBytes(base, c)) {
      BlockBytesOfChars(base, k);
    }
  }
}
