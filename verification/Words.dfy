/** Bytes and unsigned words shared by the other modules. */
module Words {

  type byte = b: int | 0 <= b < 0x100

  /** A C uint32_t: arithmetic on it is written out modulo 2^32 where it can wrap. */
  type uint32 = w: int | 0 <= w < 0x1_0000_0000

  function Min(a: int, b: int): (m: int) {
    if a < b then a else b
  }

  function Pow2(k: nat): (p: nat)
    ensures p >= 1
  {
    if k == 0 then 1 else 2 * Pow2(k - 1)
  }

  lemma Pow2Values()
    ensures Pow2(7) == 0x80 && Pow2(8) == 0x100 && Pow2(16) == 0x1_0000
    ensures Pow2(31) == 0x8000_0000 && Pow2(32) == 0x1_0000_0000
  {
    Pow2Adds(4, 3);
    Pow2Adds(4, 4);
    Pow2Adds(8, 8);
    Pow2Adds(16, 8);
    Pow2Adds(24, 7);
    Pow2Adds(24, 8);
  }

  lemma {:induction false} Pow2Adds(a: nat, b: nat)
    ensures Pow2(a + b) == Pow2(a) * Pow2(b)
  {
    if b > 0 {
      Pow2Adds(a, b - 1);
    }
  }

  /** Bitwise exclusive or of two unsigned words. */
  function Xor(a: nat, b: nat): (x: nat)
    decreases a + b
  {
    if a == 0 && b == 0 then 0
    else (if a % 2 != b % 2 then 1 else 0) + 2 * Xor(a / 2, b / 2)
  }

  /** Applying the same mask twice gives back the word it was applied to. */
  lemma {:induction false} XorCancels(a: nat, b: nat)
    ensures Xor(Xor(a, b), b) == a
    decreases a + b
  {
    if a != 0 || b != 0 {
      XorCancels(a / 2, b / 2);
      var x := Xor(a, b);
      assert x % 2 == (if a % 2 != b % 2 then 1 else 0);
      assert x / 2 == Xor(a / 2, b / 2);
    }
  }

  lemma {:induction false} XorSymmetric(a: nat, b: nat)
    ensures Xor(a, b) == Xor(b, a)
    decreases a + b
  {
    if a != 0 || b != 0 {
      XorSymmetric(a / 2, b / 2);
    }
  }

  /** Bit k of a number. */
  function BitOf(a: nat, k: nat): (b: nat)
    ensures b < 2
  {
    a / Pow2(k) % 2
  }

  /** Each bit of an exclusive or is set if and only if the two bits differ. */
  lemma {:induction false} XorBits(a: nat, b: nat, k: nat)
    ensures BitOf(Xor(a, b), k) == 1 <==> BitOf(a, k) != BitOf(b, k)
    decreases k
  {
    XorStep(a, b);
    if k > 0 {
      HalfThenRest(a, k);
      HalfThenRest(b, k);
      HalfThenRest(Xor(a, b), k);
      XorBits(a / 2, b / 2, k - 1);
    }
  }

  /** What is left of a number without its low k bits. */
  function High(a: nat, k: nat): int {
    a / Pow2(k)
  }

  /** Numbers of n bits agree from bit k on if and only if those bits do. */
  lemma {:induction false} SameHighBits(a: nat, b: nat, k: nat, n: nat)
    requires k <= n && a < Pow2(n) && b < Pow2(n)
    ensures High(a, k) == High(b, k) <==> forall i: nat :: k <= i < n ==> BitOf(a, i) == BitOf(b, i)
    decreases n - k
  {
    hide Pow2, High, BitOf;
    if k < n {
      SameHighBits(a, b, k + 1, n);
      NextHalf(a, k);
      NextHalf(b, k);
    } else {
      NothingHigh(a, k);
      NothingHigh(b, k);
    }
  }

  lemma NothingHigh(a: nat, k: nat)
    requires a < Pow2(k)
    ensures High(a, k) == 0
  {
    RemainderIs(a, Pow2(k), 0, a);
  }

  lemma NextHalf(a: nat, k: nat)
    ensures High(a, k) / 2 == High(a, k + 1) && High(a, k) % 2 == BitOf(a, k)
  {
    var p := Pow2(k);
    var q := a / p;
    DivisionSplits(a, p);
    DivisionSplits(q, 2);
    RemainderIs(a, 2 * p, q / 2, q % 2 * p + a % p) by {
      assert q * p == q / 2 * 2 * p + q % 2 * p;
      assert q / 2 * 2 * p == q / 2 * (2 * p);
      MulMonotone(q % 2, 1, p);
    }
  }

  lemma HalfThenRest(a: nat, k: nat)
    requires k > 0
    ensures a / Pow2(k) == a / 2 / Pow2(k - 1)
  {
    var p := Pow2(k - 1);
    DivisionSplits(a / 2, p);
    RemainderIs(a, 2 * p, a / 2 / p, a % 2 + 2 * (a / 2 % p)) by {
      assert a == 2 * (a / 2) + a % 2;
      assert 2 * (a / 2 / p * p) == a / 2 / p * (2 * p);
    }
  }

  lemma XorStep(a: nat, b: nat)
    ensures Xor(a, b) % 2 == (if a % 2 != b % 2 then 1 else 0)
    ensures Xor(a, b) / 2 == Xor(a / 2, b / 2)
  {
  }

  /** The low k bits of an exclusive or depend on the low k bits only. */
  lemma {:induction false} XorLowBits(a: nat, b: nat, k: nat)
    ensures Xor(a, b) % Pow2(k) == Xor(a % Pow2(k), b % Pow2(k))
    decreases k
  {
    if k > 0 {
      XorLowBits(a / 2, b / 2, k - 1);
      XorLowBit(a, b, k);
    }
  }

  lemma XorLowBit(a: nat, b: nat, k: nat)
    requires k > 0 && Xor(a / 2, b / 2) % Pow2(k - 1) == Xor(a / 2 % Pow2(k - 1), b / 2 % Pow2(k - 1))
    ensures Xor(a, b) % Pow2(k) == Xor(a % Pow2(k), b % Pow2(k))
  {
    hide Xor, Pow2;
    LowBit(a, k);
    LowBit(b, k);
    LowBit(Xor(a, b), k);
    XorStep(a, b);
    XorJoin(a % 2, a / 2 % Pow2(k - 1), b % 2, b / 2 % Pow2(k - 1));
  }

  lemma {:induction false} XorSelf(a: nat)
    ensures Xor(a, a) == 0
  {
    if a > 0 {
      XorSelf(a / 2);
    }
  }

  /** An exclusive or with all ones takes the complement. */
  lemma {:induction false} XorOnes(a: nat, k: nat)
    requires a < Pow2(k)
    ensures Xor(a, Pow2(k) - 1) == Pow2(k) - 1 - a
    decreases k
  {
    if k > 0 {
      XorOnes(a / 2, k - 1);
    }
  }

  lemma XorJoin(a: nat, c: nat, b: nat, d: nat)
    requires a < 2 && b < 2
    ensures Xor(a + 2 * c, b + 2 * d) == (if a != b then 1 else 0) + 2 * Xor(c, d)
  {
  }

  lemma LowBit(a: nat, k: nat)
    requires k > 0
    ensures a % Pow2(k) == a % 2 + 2 * (a / 2 % Pow2(k - 1))
  {
    var p := Pow2(k - 1);
    var q, r := a / 2 / p, a / 2 % p;
    assert a / 2 == q * p + r;
    assert a == q * (2 * p) + (a % 2 + 2 * r) by {
      assert a == 2 * (a / 2) + a % 2;
      assert 2 * (q * p) == q * (2 * p);
    }
    RemainderIs(a, 2 * p, q, a % 2 + 2 * r);
  }

  /** A quotient and a remainder in range are the ones that division yields. */
  lemma RemainderIs(a: int, m: int, q: int, r: int)
    requires 0 <= r < m && a == q * m + r
    ensures a / m == q && a % m == r
  {
    var d := a / m - q;
    DivisionSplits(a, m);
    assert d * m == r - a % m;
    if d > 0 {
      MulMonotone(1, d, m);
    } else if d < 0 {
      MulMonotone(d, -1, m);
    }
  }

  lemma DivisionSplits(a: int, m: int)
    requires m > 0
    ensures a == a / m * m + a % m && 0 <= a % m < m
  {
  }

  lemma MulMonotone(x: int, y: int, m: int)
    requires x <= y && m >= 0
    ensures x * m <= y * m
  {
  }

  lemma {:induction false} XorBounded(a: nat, b: nat, k: nat)
    requires a < Pow2(k) && b < Pow2(k)
    ensures Xor(a, b) < Pow2(k)
    decreases k
  {
    if k > 0 {
      XorBounded(a / 2, b / 2, k - 1);
    }
  }

  lemma ShiftTwice(n: nat, k: nat)
    ensures n / 0x100 / Pow2(k) == n / Pow2(k + 8)
  {
    Pow2Adds(8, k);
    Pow2Values();
    var p, q := Pow2(k), n / 0x100;
    DivisionSplits(q, p);
    DivisionSplits(n, 0x100);
    MulMonotone(q % p, p - 1, 0x100);
    RemainderIs(n, 0x100 * p, q / p, 0x100 * (q % p) + n % 0x100) by {
      assert 0x100 * (q / p * p) == q / p * (0x100 * p);
    }
  }

  lemma PartOfSlice(s: seq<byte>, start: nat, size: nat, from: nat, n: nat)
    requires start + size <= |s| && from + n <= size
    ensures s[start..start + size][from..from + n] == s[start + from..start + from + n]
  {
    var x, y := s[start..start + size][from..from + n], s[start + from..start + from + n];
    assert forall k :: 0 <= k < n ==> x[k] == y[k];
  }

  /** Big-endian encoding of a 32-bit word. */
  function Be32(w: uint32): (s: seq<byte>)
    ensures |s| == 4
  {
    [w / 0x100_0000, w / 0x1_0000 % 0x100, w / 0x100 % 0x100, w % 0x100]
  }

  function FromBe32(s: seq<byte>): (w: uint32)
    requires |s| == 4
  {
    var a: int, b: int, c: int, d: int := s[0], s[1], s[2], s[3];
    a * 0x100_0000 + b * 0x1_0000 + c * 0x100 + d
  }

  /** The most significant byte comes first. */
  lemma Be32Digits(w: uint32)
    ensures var a: int, b: int, c: int, d: int := Be32(w)[0], Be32(w)[1], Be32(w)[2], Be32(w)[3];
            w == a * 0x100_0000 + b * 0x1_0000 + c * 0x100 + d
  {
    Be32RoundTrip(w);
  }

  lemma Be32RoundTrip(w: uint32)
    ensures FromBe32(Be32(w)) == w
  {
    var a, b := w / 0x100, w / 0x1_0000;
    assert w == a * 0x100 + w % 0x100 && a == b * 0x100 + a % 0x100;
    assert b == w / 0x100_0000 * 0x100 + b % 0x100;
  }

  lemma Associates(a: seq<byte>, b: seq<byte>, c: seq<byte>)
    ensures (a + b) + c == a + (b + c)
  {
  }

  /** Bytes with some overwritten, from a position on. */
  function Patched(s: seq<byte>, at: nat, data: seq<byte>): (r: seq<byte>)
    requires at + |data| <= |s|
    ensures |r| == |s|
  {
    s[..at] + data + s[at + |data|..]
  }
}
