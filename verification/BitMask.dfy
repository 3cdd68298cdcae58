/** Masking with a power of two less one, on natural numbers. */
module BitMask {

  function Pow2(k: nat): (r: nat)
    ensures r > 0
  {
    if k == 0 then 1 else 2 * Pow2(k - 1)
  }

  ghost predicate IsPow2(n: nat) {
    exists k: nat :: n == Pow2(k)
  }

  lemma Pow2Positive(n: nat)
    requires IsPow2(n)
    ensures n > 0
  {
  }

  lemma DoubleIsPow2(n: nat)
    requires n == 0 || IsPow2(n)
    ensures IsPow2(if n > 0 then n * 2 else 1)
  {
    if n == 0 {
      assert Pow2(0) == 1;
    } else {
      var k: nat :| n == Pow2(k);
      assert Pow2(k + 1) == n * 2;
    }
  }

  /** Bitwise AND. */
  function BitAnd(a: nat, b: nat): nat
    decreases a + b
  {
    if a == 0 || b == 0 then 0 else (if a % 2 == 1 && b % 2 == 1 then 1 else 0) + 2 * BitAnd(a / 2, b / 2)
  }

  /** Bitwise exclusive OR. */
  function BitXor(a: nat, b: nat): nat
    decreases a + b
  {
    if a == 0 then b
    else if b == 0 then a
    else (if a % 2 != b % 2 then 1 else 0) + 2 * BitXor(a / 2, b / 2)
  }

  /** Bit `k` in two's complement: division rounds down, so a negative number has all high bits set. */
  predicate Bit(n: int, k: nat) {
    n / Pow2(k) % 2 == 1
  }

  lemma LowBit(n: int)
    ensures Bit(n, 0) <==> n % 2 == 1
  {
    assert Pow2(0) == 1;
  }

  lemma HalfOf(n: int, k: nat)
    requires k > 0
    ensures Bit(n, k) == Bit(n / 2, k - 1)
  {
    var p := Pow2(k - 1);
    DivideTwice(n, 2, p);
  }

  lemma DivideTwice(n: int, a: nat, b: nat)
    requires a > 0 && b > 0
    ensures n / (a * b) == n / a / b
  {
    var q, r := n / a / b, n / a % b;
    var low := n - a * (n / a);
    assert n == a * (b * q + r) + low == (a * b) * q + (a * r + low);
    assert 0 <= low < a;
    RemainderFits(a, b, r, low);
    QuotientIs(n, a * b, q, a * r + low);
  }

  lemma RemainderFits(a: nat, b: nat, r: nat, low: nat)
    requires r < b && low < a
    ensures 0 <= a * r + low < a * b
  {
    assert a * (r + 1) <= a * b by {
      assert a * b - a * (r + 1) == a * (b - (r + 1));
    }
  }

  lemma QuotientIs(n: int, m: nat, q: int, r: nat)
    requires n == m * q + r && r < m
    ensures n / m == q
  {
    var d := n / m - q;
    assert m * d == m * (n / m) - m * q == r - n % m;
    SmallMultiple(m, d);
  }

  /** Bitwise AND and exclusive OR are what they say, bit by bit. */
  lemma {:induction false} BitOfAnd(a: nat, b: nat, k: nat)
    ensures Bit(BitAnd(a, b), k) <==> Bit(a, k) && Bit(b, k)
    decreases k
  {
    hide Bit;
    LowBit(a);
    LowBit(b);
    LowBit(BitAnd(a, b));
    if k > 0 {
      HalfOf(a, k);
      HalfOf(b, k);
      HalfOf(BitAnd(a, b), k);
      BitOfAnd(a / 2, b / 2, k - 1);
      assert BitAnd(a, b) / 2 == BitAnd(a / 2, b / 2);
    }
  }

  lemma {:induction false} BitOfXor(a: nat, b: nat, k: nat)
    ensures Bit(BitXor(a, b), k) <==> Bit(a, k) != Bit(b, k)
    decreases k
  {
    hide Bit;
    LowBit(a);
    LowBit(b);
    LowBit(BitXor(a, b));
    NoBits(k);
    if k > 0 {
      HalfOf(a, k);
      HalfOf(b, k);
      HalfOf(BitXor(a, b), k);
      BitOfXor(a / 2, b / 2, k - 1);
      assert BitXor(a, b) / 2 == BitXor(a / 2, b / 2);
    }
  }

  lemma NoBits(k: nat)
    ensures !Bit(0, k)
  {
    QuotientIs(0, Pow2(k), 0, 0);
  }

  lemma ModUnique(x: nat, m: nat, q: nat, r: nat)
    requires m > 0 && x == m * q + r && r < m
    ensures x % m == r
  {
    var d := x / m - q;
    assert m * d == m * (x / m) - m * q == r - x % m;
    SmallMultiple(m, d);
  }

  lemma SmallMultiple(m: int, d: int)
    requires -m < m * d < m
    ensures d == 0
  {
  }

  lemma DoubleModulus(h: nat, p: nat)
    requires p > 0
    ensures h % (2 * p) == h % 2 + 2 * (h / 2 % p)
  {
    var q, r := h / 2 / p, h / 2 % p;
    assert h == 2 * (h / 2) + h % 2;
    assert h / 2 == p * q + r;
    assert h == (2 * p) * q + (h % 2 + 2 * r);
    ModUnique(h, 2 * p, q, h % 2 + 2 * r);
  }

  /** For a power of two, masking is the same as taking the remainder. */
  lemma {:induction false} MaskIsMod(h: nat, k: nat)
    ensures BitAnd(h, Pow2(k) - 1) == h % Pow2(k)
  {
    if k > 0 {
      var p := Pow2(k - 1);
      assert (2 * p - 1) / 2 == p - 1 && (2 * p - 1) % 2 == 1;
      MaskIsMod(h / 2, k - 1);
      DoubleModulus(h, p);
      if h == 0 {
        assert BitAnd(0, 2 * p - 1) == 0;
      }
    }
  }

  /** edgex_map_bucketidx: the bucket a hash selects among `n`. */
  function BucketIndex(hash: nat, n: nat): (r: nat)
    requires IsPow2(n)
    ensures r < n
  {
    assert BitAnd(hash, n - 1) < n by {
      BucketIndexIsMod(hash, n);
    }
    BitAnd(hash, n - 1)
  }

  lemma BucketIndexIsMod(hash: nat, n: nat)
    requires IsPow2(n)
    ensures BitAnd(hash, n - 1) == hash % n < n
  {
    var k: nat :| n == Pow2(k);
    MaskIsMod(hash, k);
  }

  const WORD := 0x1_0000_0000

  /** One round of edgex_hash on an unsigned 32-bit word; a `char` is signed, so a high byte is sign-extended. */
  function HashStep(hash: nat, c: char): nat {
    var byte := c as int % 256;
    BitXor((hash * 32 + hash) % WORD, if byte < 128 then byte else byte + WORD - 256)
  }

  /** edgex_hash. */
  function Hash(key: string): nat {
    if key == "" then 5381 else HashStep(Hash(key[..|key| - 1]), key[|key| - 1])
  }
}
