/** Bit-level helpers of the LC-3 engine over 16-bit words: wrapping addition,
    bitwise operations, field extraction, sign extension and big-endian decoding.
    Words are integers in [0, 2^16); every u16 operation of the engine is written
    out here, including the modulo-2^16 wrap of `+`. */
module Words {

  const WordCount: nat := 0x10000

  /** An unsigned 16-bit value, as held by every register and memory cell. */
  type Word = w: int | 0 <= w < 0x10000

  type Byte = b: int | 0 <= b < 0x100

  function Pow2(k: nat): (r: nat)
    ensures r >= 1
  {
    if k == 0 then 1 else 2 * Pow2(k - 1)
  }

  lemma Pow2Sixteen()
    ensures Pow2(8) == 0x100 && Pow2(15) == 0x8000 && Pow2(16) == WordCount
  {
  }

  lemma {:induction false} MulAtLeast(m: int, d: int)
    requires m > 0 && d >= 1
    ensures m * d >= m
  {
    if d > 1 {
      MulAtLeast(m, d - 1);
      assert m * d == m * (d - 1) + m;
    }
  }

  /** Euclidean division is determined by its quotient and remainder. */
  lemma DivModUnique(a: int, m: int, q: int, t: int)
    requires m > 0 && a == m * q + t && 0 <= t < m
    ensures a / m == q && a % m == t
  {
    var q', t' := a / m, a % m;
    assert a == m * q' + t' && 0 <= t' < m;
    assert m * (q - q') == m * q - m * q';
    if q > q' {
      MulAtLeast(m, q - q');
      assert false;
    } else if q < q' {
      MulAtLeast(m, q' - q);
      assert false;
    }
  }

  lemma Pow2Monotone(j: nat, k: nat)
    requires j <= k
    ensures Pow2(j) <= Pow2(k)
    ensures Pow2(k) % Pow2(j) == 0
  {
    if j < k {
      Pow2Monotone(j, k - 1);
      DivModUnique(Pow2(k), Pow2(j), 2 * (Pow2(k - 1) / Pow2(j)), 0);
    } else {
      DivModUnique(Pow2(k), Pow2(j), 1, 0);
    }
  }

  // ---------------------------------------------------------------------------
  // Arithmetic

  /** u16 `+` as the release build computes it: the carry out of bit 15 is dropped. */
  function WrappingAdd(a: Word, b: Word): (r: Word)
    ensures r == a + b || r == a + b - WordCount
  {
    (a + b) % WordCount
  }

  /** The two's-complement value of a word. */
  function Signed(w: Word): (r: int)
    ensures -0x8000 <= r < 0x8000
    ensures r == w || r == w - WordCount
  {
    if w < 0x8000 then w else w - WordCount
  }

  /** Adding a word is adding its two's-complement value, modulo 2^16. */
  lemma AddSigned(a: Word, b: Word)
    ensures WrappingAdd(a, b) == (a + Signed(b)) % WordCount
  {
    if b >= 0x8000 {
      DivModUnique(a + b, WordCount, (a + b) / WordCount, WrappingAdd(a, b));
      DivModUnique(a + b - WordCount, WordCount, (a + b) / WordCount - 1, WrappingAdd(a, b));
    }
  }

  /** Wrapping addition is two's-complement addition: it agrees with the signed sum
      modulo 2^16, and equals it whenever that sum fits in 16 bits. */
  lemma WrappingAddIsTwosComplement(a: Word, b: Word)
    ensures WrappingAdd(a, b) == (Signed(a) + Signed(b)) % WordCount
    ensures -0x8000 <= Signed(a) + Signed(b) < 0x8000 ==>
              Signed(WrappingAdd(a, b)) == Signed(a) + Signed(b)
  {
  }

  // ---------------------------------------------------------------------------
  // Bitwise operations, defined bit by bit from the least significant bit

  /** Bit i of a natural number. */
  function Bit(x: nat, i: nat): (r: nat)
    ensures r <= 1
  {
    if i == 0 then x % 2 else Bit(x / 2, i - 1)
  }

  function AndBits(a: nat, b: nat, n: nat): (r: nat)
    ensures r < Pow2(n)
  {
    if n == 0 then 0
    else (if a % 2 == 1 && b % 2 == 1 then 1 else 0) + 2 * AndBits(a / 2, b / 2, n - 1)
  }

  function OrBits(a: nat, b: nat, n: nat): (r: nat)
    ensures r < Pow2(n)
  {
    if n == 0 then 0
    else (if a % 2 == 1 || b % 2 == 1 then 1 else 0) + 2 * OrBits(a / 2, b / 2, n - 1)
  }

  function NotBits(a: nat, n: nat): (r: nat)
    ensures r < Pow2(n)
  {
    if n == 0 then 0 else (1 - a % 2) + 2 * NotBits(a / 2, n - 1)
  }

  /** u16 `&`. */
  function BitAnd(a: Word, b: Word): Word {
    Pow2Sixteen();
    AndBits(a, b, 16)
  }

  /** u16 `|`. */
  function BitOr(a: Word, b: Word): Word {
    Pow2Sixteen();
    OrBits(a, b, 16)
  }

  /** u16 `!`, the bitwise complement. */
  function BitNot(a: Word): Word {
    Pow2Sixteen();
    NotBits(a, 16)
  }

  /** u16 `<<` by k < 16: bits shifted past bit 15 are lost. */
  function ShiftLeft(w: Word, k: nat): Word
    requires k < 16
  {
    (w * Pow2(k)) % WordCount
  }

  /** The width-bit field of w starting at bit lo, that is `(w >> lo) & (2^width - 1)`
      (MaskIsModulo shows the mask is a remainder). */
  function Field(w: Word, lo: nat, width: nat): (r: nat)
    ensures r < Pow2(width)
  {
    (w / Pow2(lo)) % Pow2(width)
  }

  lemma {:induction false} AndBitwise(a: nat, b: nat, n: nat, i: nat)
    requires i < n
    ensures Bit(AndBits(a, b, n), i) == if Bit(a, i) == 1 && Bit(b, i) == 1 then 1 else 0
  {
    var rest := AndBits(a / 2, b / 2, n - 1);
    var low := if a % 2 == 1 && b % 2 == 1 then 1 else 0;
    DivModUnique(AndBits(a, b, n), 2, rest, low);
    if i > 0 {
      AndBitwise(a / 2, b / 2, n - 1, i - 1);
    }
  }

  /** The complement of an n-bit number is 2^n - 1 minus it. */
  lemma {:induction false} NotIsSubtraction(a: nat, n: nat)
    requires a < Pow2(n)
    ensures NotBits(a, n) == Pow2(n) - 1 - a
  {
    if n > 0 {
      NotIsSubtraction(a / 2, n - 1);
    }
  }

  lemma {:induction false} OrZero(b: nat, n: nat)
    requires b < Pow2(n)
    ensures OrBits(0, b, n) == b
  {
    if n > 0 {
      OrZero(b / 2, n - 1);
    }
  }

  /** Or-ing a number below 2^m with a multiple of 2^m adds them. */
  lemma {:induction false} OrDisjoint(a: nat, b: nat, m: nat, n: nat)
    requires m <= n && a < Pow2(m) && b < Pow2(n) && b % Pow2(m) == 0
    ensures OrBits(a, b, n) == a + b
  {
    if m == 0 {
      OrZero(b, n);
    } else {
      var p := Pow2(m - 1);
      var k := b / Pow2(m);
      assert b == p * (2 * k) by {
        assert b == Pow2(m) * k + b % Pow2(m);
      }
      DivModUnique(b, 2, p * k, 0);
      DivModUnique(b / 2, p, k, 0);
      DivModUnique(a, 2, a / 2, a % 2);
      OrDisjoint(a / 2, b / 2, m - 1, n - 1);
    }
  }

  lemma {:induction false} AndZero(a: nat, n: nat)
    ensures AndBits(a, 0, n) == 0
  {
    if n > 0 {
      AndZero(a / 2, n - 1);
    }
  }

  /** An n-bit AND is nonzero exactly when some bit below n is set in both operands. */
  lemma {:induction false} AndNonzero(a: nat, b: nat, n: nat)
    ensures AndBits(a, b, n) > 0 <==> exists i :: 0 <= i < n && Bit(a, i) == 1 && Bit(b, i) == 1
  {
    if n > 0 {
      var rest := AndBits(a / 2, b / 2, n - 1);
      var low := if a % 2 == 1 && b % 2 == 1 then 1 else 0;
      assert AndBits(a, b, n) == low + 2 * rest;
      AndNonzero(a / 2, b / 2, n - 1);
      if low == 1 {
        assert Bit(a, 0) == 1 && Bit(b, 0) == 1;
        assert exists i :: 0 <= i < n && Bit(a, i) == 1 && Bit(b, i) == 1;
      } else if rest > 0 {
        var j :| 0 <= j < n - 1 && Bit(a / 2, j) == 1 && Bit(b / 2, j) == 1;
        assert Bit(a, j + 1) == 1 && Bit(b, j + 1) == 1;
        assert exists i :: 0 <= i < n && Bit(a, i) == 1 && Bit(b, i) == 1;
      } else {
        forall i | 0 <= i < n
          ensures !(Bit(a, i) == 1 && Bit(b, i) == 1)
        {
          if i > 0 {
            assert Bit(a, i) == Bit(a / 2, i - 1) && Bit(b, i) == Bit(b / 2, i - 1);
            assert 0 <= i - 1 < n - 1;
            assert !(Bit(a / 2, i - 1) == 1 && Bit(b / 2, i - 1) == 1);
          } else {
            assert Bit(a, 0) == a % 2 && Bit(b, 0) == b % 2;
            assert !(a % 2 == 1 && b % 2 == 1);
          }
        }
      }
    }
  }

  /** A number below 2^k has no bit set at or above k. */
  lemma {:induction false} BitsAbove(x: nat, k: nat, i: nat)
    requires x < Pow2(k) && k <= i
    ensures Bit(x, i) == 0
  {
    if k == 0 {
      assert x == 0;
      if i > 0 {
        BitsAbove(0, 0, i - 1);
      }
    } else {
      BitsAbove(x / 2, k - 1, i - 1);
    }
  }

  lemma ModDouble(a: nat, p: nat)
    requires p >= 1
    ensures a % (2 * p) == 2 * ((a / 2) % p) + a % 2
  {
    var h := a / 2;
    assert h == p * (h / p) + h % p;
    assert a == (2 * p) * (h / p) + (2 * (h % p) + a % 2);
    DivModUnique(a, 2 * p, h / p, 2 * (h % p) + a % 2);
  }

  /** One step of a low mask 2p - 1: its lowest bit is set and its upper bits are p - 1. */
  lemma AndOddMask(a: nat, p: nat, n: nat)
    requires p >= 1 && n >= 1
    ensures AndBits(a, 2 * p - 1, n) == a % 2 + 2 * AndBits(a / 2, p - 1, n - 1)
  {
    DivModUnique(2 * p - 1, 2, p - 1, 1);
  }

  /** Masking with 2^k - 1 keeps the low k bits. */
  lemma {:induction false} AndLowMask(a: nat, k: nat, n: nat)
    requires k <= n
    ensures AndBits(a, Pow2(k) - 1, n) == a % Pow2(k)
  {
    if k == 0 {
      AndZero(a, n);
    } else {
      var p := Pow2(k - 1);
      var rest := AndBits(a / 2, p - 1, n - 1);
      assert rest == (a / 2) % p by { AndLowMask(a / 2, k - 1, n - 1); }
      calc {
        AndBits(a, Pow2(k) - 1, n);
        { assert Pow2(k) == 2 * p; }
        AndBits(a, 2 * p - 1, n);
        { AndOddMask(a, p, n); }
        a % 2 + 2 * rest;
        { ModDouble(a, p); }
        a % (2 * p);
        a % Pow2(k);
      }
    }
  }

  /** `v & (2^width - 1)` on 16 bits is `v % 2^width`; with v = w >> lo this is Field. */
  lemma MaskIsModulo(v: nat, width: nat)
    requires width <= 16
    ensures AndBits(v, Pow2(width) - 1, 16) == v % Pow2(width)
  {
    AndLowMask(v, width, 16);
  }

  // ---------------------------------------------------------------------------
  // Sign extension

  /** The two's-complement value of an n-bit field. */
  function FieldValue(x: nat, n: nat): (r: int)
    requires 1 <= n && x < Pow2(n)
  {
    if x < Pow2(n - 1) then x else x - Pow2(n)
  }

  /** Sign extension of the n-bit field x to 16 bits: when bit n-1 of x is set,
      every bit from n to 15 is set too. */
  function SignExtend(x: Word, n: nat): Word
    requires 1 <= n <= 15
  {
    if Field(x, n - 1, 1) > 0 then BitOr(x, ShiftLeft(0xFFFF, n)) else x
  }

  lemma {:induction false} Pow2Sum(j: nat, k: nat)
    ensures Pow2(j) * Pow2(k) == Pow2(j + k)
  {
    if j > 0 {
      Pow2Sum(j - 1, k);
    }
  }

  /** The sign bit Field(x, n - 1, 1) of an n-bit field is set exactly when x >= 2^(n-1). */
  lemma SignBitOfField(x: Word, n: nat)
    requires 1 <= n <= 15 && x < Pow2(n)
    ensures Field(x, n - 1, 1) == if x < Pow2(n - 1) then 0 else 1
  {
    var p := Pow2(n - 1);
    DivModUnique(x, p, if x < p then 0 else 1, if x < p then x else x - p);
    DivModUnique(x / p, 2, 0, x / p);
  }

  /** The fill pattern `0xFFFF << n` is 2^16 - 2^n, a multiple of 2^n. */
  lemma SignFill(n: nat)
    requires 1 <= n <= 15
    ensures ShiftLeft(0xFFFF, n) == WordCount - Pow2(n)
    ensures ShiftLeft(0xFFFF, n) == Pow2(n) * (Pow2(16 - n) - 1)
  {
    var big, rest := Pow2(n), Pow2(16 - n);
    Pow2Sixteen();
    Pow2Monotone(n, 15);
    Pow2Sum(n, 16 - n);
    assert big * rest == WordCount;
    assert big * (rest - 1) == big * rest - big;
    assert 0xFFFF * big == WordCount * (big - 1) + (WordCount - big);
    DivModUnique(0xFFFF * big, WordCount, big - 1, WordCount - big);
  }

  lemma SignExtendNegative(x: Word, n: nat)
    requires 1 <= n <= 15 && Pow2(n - 1) <= x < Pow2(n)
    ensures SignExtend(x, n) == x + WordCount - Pow2(n)
  {
    SignBitOfField(x, n);
    SignFill(n);
    Pow2Sixteen();
    Pow2Monotone(16 - n, 16);
    var m := ShiftLeft(0xFFFF, n);
    DivModUnique(m, Pow2(n), Pow2(16 - n) - 1, 0);
    OrDisjoint(x, m, n, 16);
  }

  /** A field with a clear top bit is its own sign extension, with the same value. */
  lemma SignExtendClear(x: Word, n: nat)
    requires 1 <= n <= 15 && x < Pow2(n - 1)
    ensures SignExtend(x, n) == x
    ensures SignExtend(x, n) % Pow2(n) == x && SignExtend(x, n) / Pow2(n) == 0
    ensures Signed(SignExtend(x, n)) == FieldValue(x, n)
  {
    Pow2Monotone(n - 1, 14);
    Pow2Sixteen();
    assert Pow2(n) == 2 * Pow2(n - 1);
    SignBitOfField(x, n);
    DivModUnique(x, Pow2(n), 0, x);
  }

  /** A field with a set top bit gains the fill 2^16 - 2^n above its low n bits and
      keeps its negative value. */
  lemma SignExtendSet(x: Word, n: nat)
    requires 1 <= n <= 15 && Pow2(n - 1) <= x < Pow2(n)
    ensures SignExtend(x, n) % Pow2(n) == x
    ensures SignExtend(x, n) / Pow2(n) == Pow2(16 - n) - 1
    ensures Signed(SignExtend(x, n)) == FieldValue(x, n)
  {
    var r, p := SignExtend(x, n), Pow2(n);
    SignExtendNegative(x, n);
    SignFill(n);
    assert r == x + p * (Pow2(16 - n) - 1);
    DivModUnique(r, p, Pow2(16 - n) - 1, x);
    Pow2Monotone(n - 1, 14);
    Pow2Sixteen();
    assert p == 2 * Pow2(n - 1);
    assert r >= 0x8000;
  }

  /** On a field that fits in n bits, sign extension leaves a field with a clear top
      bit unchanged, adds 2^16 - 2^n to one with a set top bit, keeps the low n bits,
      sets every bit above them exactly when the top bit is set, and so preserves
      the field's two's-complement value. */
  lemma SignExtendValue(x: Word, n: nat)
    requires 1 <= n <= 15 && x < Pow2(n)
    ensures x < Pow2(n - 1) ==> SignExtend(x, n) == x
    ensures x >= Pow2(n - 1) ==> SignExtend(x, n) == x + WordCount - Pow2(n)
    ensures SignExtend(x, n) % Pow2(n) == x
    ensures SignExtend(x, n) / Pow2(n) == if x < Pow2(n - 1) then 0 else Pow2(16 - n) - 1
    ensures Signed(SignExtend(x, n)) == FieldValue(x, n)
  {
    if x < Pow2(n - 1) {
      SignExtendClear(x, n);
    } else {
      SignExtendNegative(x, n);
      SignExtendSet(x, n);
    }
  }

  // ---------------------------------------------------------------------------
  // Bytes

  function LowByte(w: Word): Byte {
    w % 0x100
  }

  function HighByte(w: Word): Byte {
    w / 0x100
  }

  /** A big-endian byte pair read into a word, `b1 + (b0 << 8)`: the first byte is
      the high byte. */
  function SwapEndian(b0: Byte, b1: Byte): (r: Word)
    ensures HighByte(r) == b0 && LowByte(r) == b1
  {
    b1 + ShiftLeft(b0, 8)
  }

  /** The big-endian byte pair of a word. */
  function BigEndian(w: Word): (r: seq<Byte>)
    ensures |r| == 2
  {
    [HighByte(w), LowByte(w)]
  }

  /** Decoding inverts encoding, and a decoded pair is b0 * 256 + b1. */
  lemma SwapEndianRoundTrip(w: Word, b0: Byte, b1: Byte)
    ensures SwapEndian(BigEndian(w)[0], BigEndian(w)[1]) == w
    ensures BigEndian(SwapEndian(b0, b1)) == [b0, b1]
    ensures SwapEndian(b0, b1) == b0 * 256 + b1
  {
  }
}
