/** Bit strings, least significant bit first, and the machine operations on them. */
module BitStrings {

  import opened Sequences

  type Byte = x: int | 0 <= x < 256

  function Pow2(k: nat): (p: nat)
    ensures 1 <= p
  {
    if k == 0 then 1 else 2 * Pow2(k - 1)
  }

  /** The low k bits of n. */
  function Bits(n: nat, k: nat): (s: seq<bool>)
    ensures |s| == k
    decreases k, n
  {
    if k == 0 then [] else [n % 2 == 1] + Bits(n / 2, k - 1)
  }

  function Value(s: seq<bool>): (n: nat)
    ensures n < Pow2(|s|)
  {
    if s == [] then 0 else (if s[0] then 1 else 0) + 2 * Value(s[1..])
  }

  /** Bitwise or of two unsigned numbers. */
  function BitOr(a: nat, b: nat): nat
    decreases a + b
  {
    if a == 0 then b
    else (if a % 2 == 1 || b % 2 == 1 then 1 else 0) + 2 * BitOr(a / 2, b / 2)
  }

  lemma {:induction false} ValueOfBits(n: nat, k: nat)
    requires n < Pow2(k)
    ensures Value(Bits(n, k)) == n
    decreases k
  {
    if k > 0 {
      ValueOfBits(n / 2, k - 1);
    }
  }

  lemma {:induction false} BitsOfValue(s: seq<bool>)
    ensures Bits(Value(s), |s|) == s
  {
    if s != [] {
      BitsOfValue(s[1..]);
      assert s == [s[0]] + s[1..];
    }
  }

  lemma DoubleProduct(b: nat, p: nat)
    ensures b * (2 * p) == 2 * (b * p)
  {
  }

  /** Putting b above the k bits of a: what the bits are, and how or-ing achieves it. */
  lemma {:induction false} BitsJoin(a: nat, k: nat, b: nat, j: nat)
    requires a < Pow2(k)
    ensures Bits(a + b * Pow2(k), k + j) == Bits(a, k) + Bits(b, j)
    decreases k
  {
    if k > 0 {
      DoubleProduct(b, Pow2(k - 1));
      var joined := a + b * Pow2(k);
      assert joined % 2 == a % 2 && joined / 2 == a / 2 + b * Pow2(k - 1);
      BitsJoin(a / 2, k - 1, b, j);
      assert Bits(a, k) + Bits(b, j) == [a % 2 == 1] + (Bits(a / 2, k - 1) + Bits(b, j));
      assert k - 1 + j == k + j - 1;
    }
  }

  lemma {:induction false} OrIsSum(a: nat, k: nat, b: nat)
    requires a < Pow2(k)
    ensures BitOr(a, b * Pow2(k)) == a + b * Pow2(k)
    decreases k
  {
    if k > 0 && a > 0 {
      DoubleProduct(b, Pow2(k - 1));
      var high := b * Pow2(k);
      assert high % 2 == 0 && high / 2 == b * Pow2(k - 1);
      OrIsSum(a / 2, k - 1, b);
    }
  }

  lemma BelowFactor(h: nat, p: nat, q: nat)
    requires h * p < p * q
    ensures h < q
  {
    assert h >= q ==> h * p >= q * p;
  }

  lemma {:induction false} Pow2Adds(j: nat, k: nat)
    ensures Pow2(j + k) == Pow2(j) * Pow2(k)
    decreases k
  {
    if k > 0 {
      Pow2Adds(j, k - 1);
      DoubleProduct(Pow2(j), Pow2(k - 1));
    }
  }

  lemma JoinBelow(a: nat, p: nat, b: nat, q: nat)
    requires a < p && b < q
    ensures a + b * p < p * q
  {
    assert p * q == p * (q - 1 - b) + b * p + p;
  }

  lemma JoinFits(a: nat, k: nat, b: nat, j: nat)
    requires a < Pow2(k) && b < Pow2(j)
    ensures a + b * Pow2(k) < Pow2(k + j)
  {
    Pow2Adds(k, j);
    JoinBelow(a, Pow2(k), b, Pow2(j));
  }

  /** A number below 2^j written with k more bits ends in k zeros. */
  lemma BitsPadded(n: nat, j: nat, k: nat)
    requires n < Pow2(j)
    ensures Bits(n, j + k) == Bits(n, j) + Bits(0, k)
  {
    BitsJoin(n, j, 0, k);
  }

  lemma DivideBack(n: nat, p: nat)
    requires 1 <= p
    ensures n == n % p + (n / p) * p && n % p < p
  {
  }

  /** Masking keeps the low bits and shifting right keeps the others. */
  lemma SplitAt(n: nat, k: nat, j: nat, low: nat, high: nat)
    requires j <= k && n < Pow2(k)
    requires low < Pow2(j) && n == low + high * Pow2(j)
    ensures high < Pow2(k - j)
    ensures Bits(n, k)[..j] == Bits(low, j) && Value(Bits(n, k)[..j]) == low
    ensures Bits(n, k)[j..] == Bits(high, k - j)
  {
    Pow2Adds(j, k - j);
    BelowFactor(high, Pow2(j), Pow2(k - j));
    BitsJoin(low, j, high, k - j);
    ValueOfBits(low, j);
  }

  /** Or-ing in b above the k bits of a puts its bits after those of a. */
  lemma JoinBits(a: nat, k: nat, b: nat, j: nat)
    requires a < Pow2(k) && b < Pow2(j)
    ensures BitOr(a, b * Pow2(k)) < Pow2(k + j)
    ensures Bits(BitOr(a, b * Pow2(k)), k + j) == Bits(a, k) + Bits(b, j)
  {
    OrIsSum(a, k, b);
    JoinFits(a, k, b, j);
    BitsJoin(a, k, b, j);
  }

  lemma RemainderIs(n: nat, m: nat, q: nat, r: nat)
    requires 1 <= m && r < m && n == q * m + r
    ensures n % m == r && n / m == q
  {
    var d := q - n / m;
    assert d * m == n % m - r;
    assert d * m < m && 0 < d * m + m;
    assert d == 0;
  }

  lemma SumTruncated(a: nat, p: nat, v: nat, q: nat)
    requires 1 <= q && a < p
    ensures (a + v * p) % (p * q) == a + (v % q) * p
  {
    DivideBack(v, q);
    var high, low := v / q, v % q;
    JoinBelow(a, p, low, q);
    assert (high * q) * p == high * (p * q);
    assert (low + high * q) * p == low * p + (high * q) * p;
    RemainderIs(a + v * p, p * q, high, a + low * p);
  }

  lemma BytePowers(k: nat)
    requires k < 8
    ensures Pow2(k) * Pow2(8 - k) == 256
  {
    Pow2Adds(k, 8 - k);
    assert Pow2(8) == 256;
  }

  lemma TruncatedSum(a: nat, p: nat, v: nat, q: nat, m: nat)
    requires p * q == 256 && 1 <= q && a < p && m == v * p
    ensures m % 256 == (v % q) * p
    ensures (a + m) % 256 == a + (v % q) * p
    ensures a % 256 == a
  {
    SumTruncated(0, p, v, q);
    SumTruncated(a, p, v, q);
    JoinBelow(a, p, 0, q);
  }

  lemma OrWithinByte(a: nat, k: nat, v: nat, m: nat)
    requires k < 8 && a < Pow2(k) && m == v * Pow2(k)
    ensures a % 256 == a
    ensures BitOr(a, m % 256) == (a + m) % 256
  {
    BytePowers(k);
    TruncatedSum(a, Pow2(k), v, Pow2(8 - k), m);
    OrIsSum(a, k, v % Pow2(8 - k));
  }

  lemma FirstByteOf(n: nat, k: nat)
    requires 8 <= k && n < Pow2(k)
    ensures FirstByte(Bits(n, k)) == n % 256
  {
    assert Pow2(8) == 256;
    SplitAt(n, k, 8, n % 256, n / 256);
  }

  lemma FirstByteOfJoin(a: nat, k: nat, v: Byte, n: nat)
    requires a < Pow2(k) && n == a + v * Pow2(k)
    ensures FirstByte(Bits(a, k) + Bits(v, 8)) == n % 256
  {
    assert v < Pow2(8) by { assert Pow2(8) == 256; }
    JoinFits(a, k, v, 8);
    FirstByteOf(n, k + 8);
    BitsJoin(a, k, v, 8);
  }

  /** Or-ing a number onto pending bits and keeping one byte: the first byte of both strings. */
  lemma OrTruncated(a: nat, k: nat, v: Byte, low: nat, m: nat)
    requires k < 8 && a < Pow2(k) && low == a % 256 && m == v * Pow2(k)
    ensures BitOr(low, m % 256) == FirstByte(Bits(a, k) + Bits(v, 8))
  {
    OrWithinByte(a, k, v, m);
    FirstByteOfJoin(a, k, v, a + m);
  }

  /** `acc | value << bits`. */
  method OrAbove(acc: nat, bits: nat, value: nat, width: nat) returns (r: nat)
    requires acc < Pow2(bits) && value < Pow2(width)
    ensures r < Pow2(bits + width) && Bits(r, bits + width) == Bits(acc, bits) + Bits(value, width)
  {
    JoinBits(acc, bits, value, width);
    r := BitOr(acc, value * Pow2(bits));
  }

  /** `(acc & 0xff) as u8 | value << bits`, the shift losing what does not fit a byte. */
  method OrIntoByte(acc: nat, bits: nat, value: Byte) returns (b: Byte)
    requires bits < 8 && acc < Pow2(bits)
    ensures b == FirstByte(Bits(acc, bits) + Bits(value, 8))
  {
    var low, shifted := acc % 256, value * Pow2(bits);
    OrTruncated(acc, bits, value, low, shifted);
    b := BitOr(low, shifted % 256);
  }

  /** The bits of a byte string, in order. */
  function BitsOfBytes(xs: seq<Byte>): (s: seq<bool>)
    ensures |s| == 8 * |xs|
  {
    if xs == [] then [] else Bits(xs[0], 8) + BitsOfBytes(xs[1..])
  }

  function FirstByte(s: seq<bool>): (b: Byte)
    requires 8 <= |s|
  {
    assert Pow2(8) == 256;
    Value(s[..8])
  }

  /** The whole bytes of a bit string, and the fewer than eight bits after them. */
  function WholeBytes(s: seq<bool>): (xs: seq<Byte>) {
    if |s| < 8 then [] else [FirstByte(s)] + WholeBytes(s[8..])
  }

  function SpareBits(s: seq<bool>): (r: seq<bool>)
    ensures |r| < 8
  {
    if |s| < 8 then s else SpareBits(s[8..])
  }

  lemma {:induction false} BytesAndSpare(s: seq<bool>)
    ensures |s| == 8 * |WholeBytes(s)| + |SpareBits(s)|
  {
    if |s| >= 8 {
      BytesAndSpare(s[8..]);
    }
  }

  lemma FirstByteIs(b: Byte, rest: seq<bool>)
    ensures FirstByte(Bits(b, 8) + rest) == b
  {
    assert Pow2(8) == 256;
    ValueOfBits(b, 8);
    assert (Bits(b, 8) + rest)[..8] == Bits(b, 8);
  }

  lemma ByteInFront(b: Byte, rest: seq<bool>)
    ensures WholeBytes(Bits(b, 8) + rest) == [b] + WholeBytes(rest)
  {
    FirstByteIs(b, rest);
    assert (Bits(b, 8) + rest)[8..] == rest;
  }

  lemma {:induction false} BytesAreTheirBits(xs: seq<Byte>, extra: seq<bool>)
    requires |extra| < 8
    ensures WholeBytes(BitsOfBytes(xs) + extra) == xs
  {
    if xs == [] {
      assert BitsOfBytes(xs) + extra == extra;
    } else {
      var later := BitsOfBytes(xs[1..]);
      BytesAreTheirBits(xs[1..], extra);
      ByteInFront(xs[0], later + extra);
      Associative(Bits(xs[0], 8), later, extra);
    }
  }

  /** Bytes can be cut from a bit string in two goes. */
  lemma {:induction false} WholeBytesInTwo(s: seq<bool>, t: seq<bool>)
    ensures WholeBytes(s + t) == WholeBytes(s) + WholeBytes(SpareBits(s) + t)
    ensures SpareBits(s + t) == SpareBits(SpareBits(s) + t)
    decreases |s|
  {
    if |s| >= 8 {
      var tail := s[8..];
      var both := s + t;
      WholeBytesInTwo(tail, t);
      assert both[..8] == s[..8] && both[8..] == tail + t;
    }
  }

  lemma {:induction false} BitsOfBytesJoin(xs: seq<Byte>, ys: seq<Byte>)
    ensures BitsOfBytes(xs + ys) == BitsOfBytes(xs) + BitsOfBytes(ys)
  {
    if xs == [] {
      assert xs + ys == ys;
    } else {
      assert (xs + ys)[0] == xs[0] && (xs + ys)[1..] == xs[1..] + ys;
      BitsOfBytesJoin(xs[1..], ys);
    }
  }
}
