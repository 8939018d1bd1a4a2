/** Index arithmetic of the CTZ skip-lists that hold the files of littlefs.

    Block 0 of a file holds data only; block i > 0 starts with ctz(i) + 1 pointers of four bytes. */
module LfsCtzIndex {
  import opened Words

  /** The number of ones in a binary number. */
  function Popc(n: nat): nat {
    if n == 0 then 0 else n % 2 + Popc(n / 2)
  }

  /** The number of zeros at the end of a binary number. */
  function Ctz(n: nat): nat
    requires n > 0
  {
    if n % 2 == 1 then 0 else 1 + Ctz(n / 2)
  }

  /** The least e such that 2^e is no less than a. */
  function Npw2(a: nat): nat {
    if a <= 1 then 0 else 1 + Npw2((a + 1) / 2)
  }

  lemma {:induction false} Npw2IsLeast(a: nat)
    ensures a <= Pow2(Npw2(a))
    ensures a >= 2 ==> Npw2(a) > 0 && Pow2(Npw2(a) - 1) < a
  {
    if a >= 2 {
      Npw2IsLeast((a + 1) / 2);
    }
  }

  /** How many pointers block i starts with. */
  function Pointers(i: nat): nat {
    if i == 0 then 0 else Ctz(i) + 1
  }

  /** The file position of the first byte of data in block i. */
  function DataStart(i: nat, blockSize: int): int {
    if i == 0 then 0 else DataStart(i - 1, blockSize) + blockSize - 4 * Pointers(i - 1)
  }

  function TotalPointers(m: nat): nat {
    if m == 0 then 0 else TotalPointers(m - 1) + Pointers(m)
  }

  /** Counting up by one turns the trailing ones into a single one. */
  lemma {:induction false} PopcStep(m: nat)
    requires m > 0
    ensures Popc(m) + Ctz(m) == Popc(m - 1) + 1
  {
    if m % 2 == 1 {
      assert (m - 1) / 2 == m / 2;
    } else {
      PopcStep(m / 2);
      assert (m - 1) / 2 == m / 2 - 1 && (m - 1) % 2 == 1;
    }
  }

  /** Blocks 1 to m hold 2m - popc(m) pointers in all. */
  lemma {:induction false} PointersInAll(m: nat)
    ensures TotalPointers(m) + Popc(m) == 2 * m
  {
    if m > 0 {
      PointersInAll(m - 1);
      PopcStep(m);
    }
  }

  /** The layout in closed form. */
  lemma {:induction false} DataStartClosed(i: nat, blockSize: int, b: int)
    requires i > 0 && b == blockSize - 2 * 4
    ensures DataStart(i, blockSize) == i * b + 4 * (Popc(i - 1) + 2)
  {
    if i == 1 {
      assert DataStart(1, blockSize) == blockSize;
    } else {
      DataStartClosed(i - 1, blockSize, b);
      PopcStep(i - 1);
      assert i * b == (i - 1) * b + b;
    }
  }

  lemma {:induction false} PopcBound(n: nat, k: nat)
    requires n < Pow2(k)
    ensures Popc(n) <= k
    decreases k
  {
    if k > 0 {
      PopcBound(n / 2, k - 1);
    }
  }

  /** A block can always hold its pointers and some data. */
  lemma DataStartGrows(i: nat, blockSize: nat)
    requires blockSize >= 128 && i < Pow2(26)
    ensures 4 * Pointers(i) < blockSize && DataStart(i, blockSize) < DataStart(i + 1, blockSize)
  {
    if i > 0 {
      CtzBound(i);
      if Ctz(i) > 26 {
        Pow2Monotone(26, Ctz(i));
      }
    }
  }

  lemma {:induction false} CtzBound(n: nat)
    requires n > 0
    ensures Pow2(Ctz(n)) <= n
  {
    if n % 2 == 0 {
      CtzBound(n / 2);
    }
  }

  lemma {:induction false} Pow2Monotone(a: nat, b: nat)
    requires a <= b
    ensures Pow2(a) <= Pow2(b)
    decreases b
  {
    if a < b {
      Pow2Monotone(a, b - 1);
    }
  }

  /** Block i is the one whose data holds a position. */
  predicate Covers(i: nat, pos: int, blockSize: int) {
    DataStart(i, blockSize) <= pos < DataStart(i + 1, blockSize)
  }

  function Quotient(a: int, m: int): int
    requires m > 0
  {
    a / m
  }

  lemma QuotientIs(a: int, m: int, q: int)
    requires m > 0 && q * m <= a < q * m + m
    ensures Quotient(a, m) == q
  {
    RemainderIs(a, m, q, a - q * m);
  }

  /** Block n cannot start before n blocks' worth of data without pointers, so n is small. */
  lemma StartsFarEnough(n: nat, blockSize: nat, pos: nat)
    requires blockSize >= 128 && pos < 0x1_0000_0000 && DataStart(n, blockSize) <= pos
    ensures n < Pow2(26) && n <= pos
  {
    var b := blockSize - 2 * 4;
    if n > 0 {
      DataStartClosed(n, blockSize, b);
    }
    MulMonotone(120, b, n);
    assert n * b == b * n;
    Pow2Adds(16, 10);
    Pow2Adds(7, 3);
    Pow2Values();
  }

  /** Some block covers every position. */
  lemma BlockOf(blockSize: nat, pos: nat) returns (n: nat)
    requires blockSize >= 128 && pos < 0x1_0000_0000
    ensures Covers(n, pos, blockSize) && n < Pow2(26)
  {
    n := 0;
    while DataStart(n + 1, blockSize) <= pos
      invariant DataStart(n, blockSize) <= pos && n <= pos
      decreases pos - n
    {
      n := n + 1;
      StartsFarEnough(n, blockSize, pos);
    }
    StartsFarEnough(n, blockSize, pos);
  }

  lemma {:induction false} StartsInOrder(i: nat, j: nat, blockSize: nat)
    requires blockSize >= 128 && i <= j <= Pow2(26)
    ensures DataStart(i, blockSize) <= DataStart(j, blockSize)
    decreases j
  {
    hide DataStart;
    if i < j {
      StartsInOrder(i, j - 1, blockSize);
      DataStartGrows(j - 1, blockSize);
    }
  }

  /** Only one block covers a position. */
  lemma OnlyBlockOf(i: nat, j: nat, pos: nat, blockSize: nat)
    requires blockSize >= 128 && pos < 0x1_0000_0000 && Covers(i, pos, blockSize) && Covers(j, pos, blockSize)
    ensures i == j
  {
    hide DataStart;
    StartsFarEnough(i, blockSize, pos);
    StartsFarEnough(j, blockSize, pos);
    if i < j {
      StartsInOrder(i + 1, j, blockSize);
    } else if j < i {
      StartsInOrder(j + 1, i, blockSize);
    }
  }

  /** The bounds that the layout puts on a position in block n. */
  lemma CoveredBounds(blockSize: nat, pos: nat, n: nat, b: int)
    requires blockSize >= 128 && pos < 0x1_0000_0000 && Covers(n, pos, blockSize) && b == blockSize - 8
    ensures 4 * (Popc(n) + 2) <= b
    ensures pos < n * b + b + 4 * (Popc(n) + 2)
    ensures n > 0 ==> n * b + 4 * (Popc(n - 1) + 2) <= pos && 4 * (Popc(n - 1) + 2) <= b
    ensures 4 * Pointers(n) - DataStart(n, blockSize) == -(b * n) - 4 * Popc(n)
    ensures pos - DataStart(n, blockSize) + 4 * Pointers(n) < blockSize
  {
    hide Popc, Pointers, DataStart;
    StartsFarEnough(n, blockSize, pos);
    FewPointers(n, b);
    DataStartClosed(n + 1, blockSize, b);
    assert (n + 1) * b == n * b + b && b * n == n * b;
    PointersClosed(n);
    FirstStart(blockSize);
    if n > 0 {
      FewPointers(n - 1, b);
      DataStartClosed(n, blockSize, b);
    }
  }

  lemma FewPointers(n: nat, b: int)
    requires n < Pow2(26) && b >= 120
    ensures 4 * (Popc(n) + 2) <= b
  {
    PopcBound(n, 26);
  }

  lemma FirstStart(blockSize: nat)
    ensures DataStart(0, blockSize) == 0
  {
  }

  lemma PointersClosed(n: nat)
    ensures n == 0 ==> Pointers(n) == 0 && Popc(n) == 0
    ensures n > 0 ==> Pointers(n) + Popc(n) == Popc(n - 1) + 2
  {
    if n > 0 {
      PopcStep(n);
    }
  }

  /** The first quotient is the block or the next one; subtracting the pointers of the blocks
      before it and dividing again gives the block. */
  lemma TwoDivisions(blockSize: nat, pos: nat, n: nat, b: int)
    requires blockSize >= 128 && pos < 0x1_0000_0000 && Covers(n, pos, blockSize) && b == blockSize - 8
    ensures pos < b ==> Quotient(pos, b) == 0 && n == 0
    ensures pos >= b ==>
              var first := Quotient(pos, b);
              && first > 0 && pos >= 4 * (Popc(first - 1) + 2)
              && Quotient(pos - 4 * (Popc(first - 1) + 2), b) == n
  {
    hide Quotient, Popc, DataStart, Pointers, Covers;
    CoveredBounds(blockSize, pos, n, b);
    if pos < b {
      QuotientIs(pos, b, 0);
      if n > 0 {
        MulMonotone(1, n, b);
      }
    } else if pos < n * b + b {
      assert n > 0;
      QuotientIs(pos, b, n);
      QuotientIs(pos - 4 * (Popc(n - 1) + 2), b, n);
    } else {
      assert (n + 1) * b == n * b + b;
      QuotientIs(pos, b, n + 1);
      QuotientIs(pos - 4 * (Popc(n) + 2), b, n);
    }
  }

  /** The block and the offset in it of a file position: two divisions and two popcounts.  For any
      block size that littlefs accepts and any position, the block is the one the layout gives. */
  method Index(blockSize: uint32, pos: uint32) returns (i: nat, off: nat)
    requires blockSize >= 128
    ensures Covers(i, pos, blockSize)
    ensures off == pos - DataStart(i, blockSize) + 4 * Pointers(i) && off < blockSize
  {
    hide Popc, DataStart, Pointers, Quotient;
    var b := blockSize - 2 * 4;
    ghost var n := BlockOf(blockSize, pos);
    TwoDivisions(blockSize, pos, n, b);
    CoveredBounds(blockSize, pos, n, b);
    i := Quotient(pos, b);
    if i == 0 {
      CoveredBounds(blockSize, pos, 0, b);
      assert Popc(0) == 0 by { NoPointers(); }
      return 0, pos;
    }
    i := Quotient(pos - 4 * (Popc(i - 1) + 2), b);
    off := pos - b * i - 4 * Popc(i);
  }

  lemma NoPointers()
    ensures Popc(0) == 0
  {
  }
}
