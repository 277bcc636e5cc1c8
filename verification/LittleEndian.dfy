/**
 Little-endian integers of encoding/binary.  Writing keeps the low bytes of its
 argument, as the conversions to uint16, uint32 and uint64 in the code do.
 */
module LittleEndian {
  import opened Strings

  const TWO16 := 0x1_0000
  const TWO32 := 0x1_0000_0000
  const TWO64 := 0x1_0000_0000_0000_0000

  type U32 = n: int | 0 <= n < TWO32

  function Put16(n: nat): (b: Str)
    ensures |b| == 2
  {
    [n % 256, n / 256 % 256]
  }

  function Get16(b: Str): (n: nat)
    requires |b| == 2
    ensures n < TWO16
  {
    (b[0] as int) + 256 * (b[1] as int)
  }

  function Put32(n: nat): (b: Str)
    ensures |b| == 4
  {
    Put16(n) + Put16(n / TWO16)
  }

  function Get32(b: Str): (n: nat)
    requires |b| == 4
    ensures n < TWO32
  {
    Get16(b[..2]) + TWO16 * Get16(b[2..])
  }

  function Put64(n: nat): (b: Str)
    ensures |b| == 8
  {
    Put32(n) + Put32(n / TWO32)
  }

  function Get64(b: Str): (n: nat)
    requires |b| == 8
    ensures n < TWO64
  {
    Get32(b[..4]) + TWO32 * Get32(b[4..])
  }

  lemma {:induction false} Split32(n: nat)
    ensures n % TWO32 == n % TWO16 + TWO16 * (n / TWO16 % TWO16)
  {
    var m := n / TWO16;
    assert n == TWO16 * m + n % TWO16 && m == TWO16 * (m / TWO16) + m % TWO16;
  }

  lemma {:induction false} Split64(n: nat)
    ensures n % TWO64 == n % TWO32 + TWO32 * (n / TWO32 % TWO32)
  {
    var m := n / TWO32;
    assert n == TWO32 * m + n % TWO32 && m == TWO32 * (m / TWO32) + m % TWO32;
  }

  /** Reading back gives the number modulo the width. */
  lemma {:induction false} RoundTrip16(n: nat)
    ensures Get16(Put16(n)) == n % TWO16
  {
  }

  lemma {:induction false} RoundTrip32(n: nat)
    ensures Get32(Put32(n)) == n % TWO32
  {
    hide Get16, Put16;
    var b := Put32(n);
    assert b[..2] == Put16(n) && b[2..] == Put16(n / TWO16);
    RoundTrip16(n);
    RoundTrip16(n / TWO16);
    Split32(n);
  }

  lemma {:induction false} RoundTrip64(n: nat)
    ensures Get64(Put64(n)) == n % TWO64
  {
    hide Get32, Put32;
    var b := Put64(n);
    assert b[..4] == Put32(n) && b[4..] == Put32(n / TWO32);
    RoundTrip32(n);
    RoundTrip32(n / TWO32);
    Split64(n);
  }

  /** Writing what was read gives the same bytes. */
  lemma {:induction false} Canonical16(b: Str)
    requires |b| == 2
    ensures Put16(Get16(b)) == b
  {
  }

  lemma {:induction false} Canonical32(b: Str)
    requires |b| == 4
    ensures Put32(Get32(b)) == b
  {
    var lo, hi := Get16(b[..2]), Get16(b[2..]);
    var n := lo + TWO16 * hi;
    assert n / TWO16 == hi && n % TWO16 == lo;
    LowBytes(n, lo, hi);
    Canonical16(b[..2]);
    Canonical16(b[2..]);
    assert b == b[..2] + b[2..];
  }

  lemma {:induction false} LowBytes(n: nat, lo: nat, hi: nat)
    requires lo < TWO16 && n == lo + TWO16 * hi
    ensures Put16(n) == Put16(lo)
  {
    assert n / 256 == lo / 256 + 256 * hi;
  }

  // Signed 64-bit integers travel as their two's complement.

  function FromInt64(i: int): (n: nat)
    requires -TWO64 / 2 <= i < TWO64 / 2
    ensures n < TWO64
  {
    if i >= 0 then i else i + TWO64
  }

  function ToInt64(n: nat): (i: int)
    requires n < TWO64
    ensures -TWO64 / 2 <= i < TWO64 / 2
    ensures FromInt64(i) == n
  {
    if n < TWO64 / 2 then n else n - TWO64
  }

  /** The bytes in the file: the low byte first. */
  lemma {:induction false} ByteOrder(n: nat)
    ensures Put16(n) == [n % 0x100, n / 0x100 % 0x100]
    ensures Put32(n) == [n % 0x100, n / 0x100 % 0x100, n / 0x1_0000 % 0x100, n / 0x100_0000 % 0x100]
    ensures forall i :: 0 <= i < 4 ==> Put64(n)[i] == Put32(n)[i] && Put64(n)[4 + i] == Put32(n / 0x1_0000_0000)[i]
  {
    var m := n / TWO16;
    assert m / 0x100 == n / 0x100_0000;
  }

  lemma {:induction false} Canonical64(b: Str)
    requires |b| == 8
    ensures Put64(Get64(b)) == b
  {
    hide Get32, Put32;
    var lo, hi := Get32(b[..4]), Get32(b[4..]);
    Canonical32(b[..4]);
    Canonical32(b[4..]);
    LowHalf(lo, hi);
    assert Get64(b) / TWO32 == hi;
    assert b == b[..4] + b[4..];
  }

  lemma {:induction false} LowHalf(lo: nat, hi: nat)
    requires lo < TWO32
    ensures Put32(lo + TWO32 * hi) == Put32(lo)
  {
    hide Put16;
    var n, a, b := lo + TWO32 * hi, lo % TWO16, lo / TWO16;
    assert lo == a + TWO16 * b;
    assert n == a + TWO16 * (b + TWO16 * hi);
    LowBytes(n, a, b + TWO16 * hi);
    LowBytes(lo, a, b);
    assert n / TWO16 == b + TWO16 * hi;
    LowBytes(n / TWO16, b, hi);
  }
}
