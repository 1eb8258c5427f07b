// Unsigned big-endian integers as byte strings (`u32::to_be_bytes`,
// `u64::from_be_bytes`, ...) and the lexicographic order in which sled
// iterates its keys.
module Bytes {
  newtype byte = x: int | 0 <= x < 256

  /** 256^n: one more than the largest value that fits in n bytes. */
  function Pow256(n: nat): (r: nat)
    ensures r >= 1
  {
    if n == 0 then 1 else 256 * Pow256(n - 1)
  }

  const U32_LIMIT: nat := 0x1_0000_0000
  const U64_LIMIT: nat := 0x1_0000_0000_0000_0000

  lemma Pow256Values()
    ensures Pow256(4) == U32_LIMIT && Pow256(8) == U64_LIMIT
  {
  }

  lemma DivModUnique(q: int, r: int, d: int)
    requires d > 0 && 0 <= r < d
    ensures (q * d + r) / d == q && (q * d + r) % d == r
  {
    var n := q * d + r;
    var q', r' := n / d, n % d;
    assert q' * d + r' == q * d + r;
    assert (q' - q) * d == r - r';
    if q' > q {
      assert (q' - q) * d >= d by { MulAtLeast(q' - q, d); }
    } else if q' < q {
      assert (q - q') * d >= d by { MulAtLeast(q - q', d); }
    }
  }

  lemma MulAtLeast(k: int, d: int)
    requires k >= 1 && d > 0
    ensures k * d >= d
  {
  }

  lemma DivBelow(n: nat, d: nat, k: nat)
    requires d > 0 && n < k * d
    ensures n / d < k
  {
    DivModUnique(n / d, n % d, d);
    if n / d >= k {
      assert (n / d) * d >= k * d by { MulMono(k, n / d, d); }
    }
  }

  lemma MulMono(a: int, b: int, d: int)
    requires a <= b && d >= 0
    ensures a * d <= b * d
  {
  }

  /** `n.to_be_bytes()` for an unsigned integer `width` bytes wide. */
  function EncodeBE(n: nat, width: nat): (r: seq<byte>)
    requires n < Pow256(width)
    ensures |r| == width
  {
    if width == 0 then []
    else
      var p := Pow256(width - 1);
      DivBelow(n, p, 256);
      [(n / p) as byte] + EncodeBE(n % p, width - 1)
  }

  /** `uN::from_be_bytes(b)`: the most significant byte comes first. */
  function DecodeBE(b: seq<byte>): (n: nat)
    ensures n < Pow256(|b|)
  {
    if |b| == 0 then 0
    else
      var rest := DecodeBE(b[1..]);
      var p := Pow256(|b| - 1);
      assert b[0] as int * p + rest < 256 * p by {
        MulMono(b[0] as int, 255, p);
      }
      b[0] as int * p + rest
  }

  lemma {:induction false} DecodeEncodeBE(n: nat, width: nat)
    requires n < Pow256(width)
    ensures DecodeBE(EncodeBE(n, width)) == n
  {
    if width > 0 {
      var p := Pow256(width - 1);
      var e := EncodeBE(n, width);
      DivBelow(n, p, 256);
      DecodeEncodeBE(n % p, width - 1);
      assert e[1..] == EncodeBE(n % p, width - 1);
      assert e[0] as int == n / p;
    }
  }

  lemma {:induction false} EncodeDecodeBE(b: seq<byte>)
    ensures EncodeBE(DecodeBE(b), |b|) == b
  {
    if |b| > 0 {
      var p := Pow256(|b| - 1);
      var rest := DecodeBE(b[1..]);
      DivModUnique(b[0] as int, rest, p);
      EncodeDecodeBE(b[1..]);
      assert DecodeBE(b) / p == b[0] as int;
      assert DecodeBE(b) % p == rest;
    }
  }

  /** Two equal-width encodings are equal only for equal numbers. */
  lemma EncodeBEInjective(m: nat, n: nat, width: nat)
    requires m < Pow256(width) && n < Pow256(width)
    requires EncodeBE(m, width) == EncodeBE(n, width)
    ensures m == n
  {
    DecodeEncodeBE(m, width);
    DecodeEncodeBE(n, width);
  }

  /** Unsigned lexicographic byte order: sled's key order. */
  predicate LexLess(a: seq<byte>, b: seq<byte>)
  {
    if |a| == 0 then |b| > 0
    else if |b| == 0 then false
    else a[0] < b[0] || (a[0] == b[0] && LexLess(a[1..], b[1..]))
  }

  lemma {:induction false} LexLessIrreflexive(a: seq<byte>)
    ensures !LexLess(a, a)
  {
    if |a| > 0 {
      LexLessIrreflexive(a[1..]);
    }
  }

  lemma {:induction false} LexLessTotal(a: seq<byte>, b: seq<byte>)
    requires a != b
    ensures LexLess(a, b) || LexLess(b, a)
  {
    if |a| > 0 && |b| > 0 && a[0] == b[0] {
      assert a == [a[0]] + a[1..] && b == [b[0]] + b[1..];
      LexLessTotal(a[1..], b[1..]);
    }
  }

  lemma {:induction false} LexLessAsymmetric(a: seq<byte>, b: seq<byte>)
    requires LexLess(a, b)
    ensures !LexLess(b, a)
  {
    if |a| > 0 && |b| > 0 && a[0] == b[0] {
      LexLessAsymmetric(a[1..], b[1..]);
    }
  }

  lemma {:induction false} LexLessTransitive(a: seq<byte>, b: seq<byte>, c: seq<byte>)
    requires LexLess(a, b) && LexLess(b, c)
    ensures LexLess(a, c)
  {
    if |a| > 0 && |b| > 0 && |c| > 0 && a[0] == b[0] && b[0] == c[0] {
      LexLessTransitive(a[1..], b[1..], c[1..]);
    }
  }

  /** A leading digit decides the order of two numbers `x * p + r` with
      remainders below `p`. */
  lemma DigitOrder(x: int, rx: int, y: int, ry: int, p: int)
    requires 0 <= rx < p && 0 <= ry < p
    ensures x < y ==> x * p + rx < y * p + ry
  {
    if x < y {
      MulMono(x + 1, y, p);
      assert (x + 1) * p == x * p + p;
    }
  }

  /** For keys of one width, sled's byte order is the numeric order of
      their big-endian values; this is why `sort_by_key(index)` after a
      key-ordered scan leaves the entries where they were. */
  lemma {:induction false} LexLessIsNumericOrder(a: seq<byte>, b: seq<byte>)
    requires |a| == |b|
    ensures LexLess(a, b) <==> DecodeBE(a) < DecodeBE(b)
  {
    if |a| > 0 {
      var p := Pow256(|a| - 1);
      var ra, rb := DecodeBE(a[1..]), DecodeBE(b[1..]);
      LexLessIsNumericOrder(a[1..], b[1..]);
      assert DecodeBE(a) == a[0] as int * p + ra && ra < p;
      assert DecodeBE(b) == b[0] as int * p + rb && rb < p;
      DigitOrder(a[0] as int, ra, b[0] as int, rb, p);
      DigitOrder(b[0] as int, rb, a[0] as int, ra, p);
    }
  }
}
