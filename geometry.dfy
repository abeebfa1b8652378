/** Disk geometry shared by the file header code: sector size, the length of a
    header's sector table, the file-size ceiling, and nachos' divRoundUp. The
    three constants are declared in filehdr.h, which is not part of this model,
    so they are left abstract here with the only facts the code relies on. */
module Geometry {

  type Positive = x: int | x > 0 witness 1
  type AtLeastTwo = x: int | x >= 2 witness 2

  /** Bytes in one disk sector. */
  const SectorSize: Positive

  /** Number of slots in a header's dataSectors table. */
  const NumDirect: AtLeastTwo

  /** The ceiling that Allocate and Extend compare against. */
  const MaxFileSize: nat

  /** Index of the last slot, the one that may name an indirection sector. */
  const IndirectSlot: nat := NumDirect - 1

  /** Bytes covered by the first NumDirect-1 slots of one header. */
  const DirectBytes: Positive := (NumDirect - 1) * SectorSize

  /** nachos' divRoundUp(n, SectorSize): n / s, plus one when n % s > 0. */
  function DivRoundUp(n: nat): (r: nat)
    ensures n == 0 <==> r == 0
  {
    n / SectorSize + (if n % SectorSize > 0 then 1 else 0)
  }

  /** divRoundUp gives the fewest sectors that hold n bytes. */
  lemma DivRoundUpBounds(n: nat)
    ensures DivRoundUp(n) * SectorSize >= n
    ensures n > 0 ==> (DivRoundUp(n) - 1) * SectorSize < n
  {
    var q := n / SectorSize;
    assert n == q * SectorSize + n % SectorSize;
  }

  lemma MulStrict(a: int, b: int, m: Positive)
    requires a * m < b * m
    ensures a < b
  {
    assert (b - a) * m == b * m - a * m;
  }

  lemma MulMono(a: int, b: int, m: Positive)
    requires a <= b
    ensures a * m <= b * m
  {
    assert (b - a) * m == b * m - a * m;
  }

  /** divRoundUp is the unique r with (r-1)*s < n <= r*s. */
  lemma DivRoundUpUnique(n: nat, r: nat)
    requires r * SectorSize >= n
    requires n > 0 ==> (r - 1) * SectorSize < n
    requires n == 0 ==> r == 0
    ensures DivRoundUp(n) == r
  {
    var d := DivRoundUp(n);
    DivRoundUpBounds(n);
    if n > 0 {
      MulStrict(d - 1, r, SectorSize);
      MulStrict(r - 1, d, SectorSize);
    }
  }

  /** Cutting the first NumDirect-1 sectors' worth of bytes off a file cuts
      exactly NumDirect-1 sectors off its sector count. */
  lemma DivRoundUpShift(n: nat)
    requires n > DirectBytes
    ensures DivRoundUp(n - DirectBytes) == DivRoundUp(n) - (NumDirect - 1)
    ensures DivRoundUp(n) > NumDirect - 1
  {
    var d := DivRoundUp(n);
    DivRoundUpBounds(n);
    var k := NumDirect - 1;
    assert (d - k) * SectorSize == d * SectorSize - DirectBytes;
    assert (d - k - 1) * SectorSize == (d - 1) * SectorSize - DirectBytes;
    MulStrict(k, d, SectorSize);
    DivRoundUpUnique(n - DirectBytes, d - k);
  }

  /** A file fits in the direct slots exactly when its byte length does. */
  lemma DirectIffBytes(n: nat)
    ensures DivRoundUp(n) <= NumDirect - 1 <==> n <= DirectBytes
  {
    var d := DivRoundUp(n);
    DivRoundUpBounds(n);
    if d <= NumDirect - 1 {
      MulMono(d, NumDirect - 1, SectorSize);
    }
    if 0 < n <= DirectBytes {
      MulStrict(d - 1, NumDirect - 1, SectorSize);
    }
  }

  lemma DivRoundUpMonotone(m: nat, n: nat)
    requires m <= n
    ensures DivRoundUp(m) <= DivRoundUp(n)
  {
    DivRoundUpBounds(m);
    DivRoundUpBounds(n);
    if m > 0 {
      MulStrict(DivRoundUp(m) - 1, DivRoundUp(n), SectorSize);
    }
  }

  /** A sector count never exceeds the byte count it was computed from. */
  lemma DivRoundUpAtMost(n: nat)
    ensures DivRoundUp(n) <= n
  {
    var d := DivRoundUp(n);
    DivRoundUpBounds(n);
    if d >= 2 {
      MulMono(1, SectorSize, d - 1);
      assert (d - 1) * SectorSize >= d - 1;
    }
  }

  /** The sector index of a byte inside a file of n bytes is below the
      file's sector count. */
  lemma OffsetSector(offset: nat, n: nat)
    requires offset < n
    ensures 0 <= offset / SectorSize < DivRoundUp(n)
  {
    var q := offset / SectorSize;
    DivRoundUpBounds(n);
    assert q * SectorSize <= offset;
    MulStrict(q, DivRoundUp(n), SectorSize);
  }

  /** Skipping the direct bytes of a header skips NumDirect-1 sector indices. */
  lemma OffsetShift(offset: nat)
    requires offset >= DirectBytes
    ensures (offset - DirectBytes) / SectorSize == offset / SectorSize - (NumDirect - 1)
  {
    var q := offset / SectorSize;
    var r := offset % SectorSize;
    var k := NumDirect - 1;
    assert offset - DirectBytes == (q - k) * SectorSize + r;
    DivUnique(offset - DirectBytes, q - k, r);
  }

  lemma DivUnique(x: int, q: int, r: int)
    requires x == q * SectorSize + r && 0 <= r < SectorSize
    ensures x / SectorSize == q
  {
    var q' := x / SectorSize;
    var r' := x % SectorSize;
    assert (q - q') * SectorSize == r' - r;
    if q' < q {
      MulMono(1, q - q', SectorSize);
    } else if q < q' {
      MulMono(1, q' - q, SectorSize);
    }
  }

  /** A quotient by SectorSize is at least one once the dividend reaches it. */
  lemma DivAtLeastOne(x: int)
    requires x >= SectorSize
    ensures x / SectorSize >= 1
  {
    var q, r := x / SectorSize, x % SectorSize;
    assert x == q * SectorSize + r;
    if q <= 0 {
      MulMono(q, 0, SectorSize);
    }
  }

  /** C's integer division, which truncates toward zero (Dafny's rounds
      toward minus infinity for negative dividends). */
  function CDiv(a: int, b: Positive): (q: int)
    ensures a >= 0 ==> q == a / b
    ensures a < 0 && a + b > 0 ==> q == 0
  {
    if a >= 0 then a / b else -((-a) / b)
  }
}
