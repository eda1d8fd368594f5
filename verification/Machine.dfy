/** Machine-level vocabulary of FatFs: bytes, 32-bit words, result codes and little-endian words. */
module Machine {

  /** BYTE */
  type Byte = x: int | 0 <= x < 0x100 witness 0
  /** DWORD */
  type Word32 = x: int | 0 <= x < 0x1_0000_0000 witness 0

  /** "Disk error" as a cluster status and "no sector" as a window position. */
  const NONE: nat := 0xFFFF_FFFF

  datatype FResult =
    | FrOk | FrDiskErr | FrIntErr | FrNoFile | FrDenied | FrExist | FrInvalidName
    | FrInvalidObject | FrNoFilesystem | FrMkfsAborted | FrInvalidParameter | FrNotEnoughCore

  /** DWORD subtraction, which wraps. */
  function Sub32(a: Word32, b: Word32): Word32 { (a - b) % 0x1_0000_0000 }

  /** A range test by wrapping subtraction. */
  lemma Sub32Below(a: Word32, b: Word32, n: nat)
    requires b + n <= 0x1_0000_0000
    ensures Sub32(a, b) < n <==> b <= a < b + n
    ensures b <= a ==> Sub32(a, b) == a - b
  {
  }

  /** Bitwise conjunction of two naturals. */
  function BitAnd(a: nat, b: nat): nat
    decreases a
  {
    if a == 0 || b == 0 then 0 else (if a % 2 == 1 && b % 2 == 1 then 1 else 0) + 2 * BitAnd(a / 2, b / 2)
  }

  ghost predicate PowerOfTwo(c: nat) {
    c == 1 || (c > 1 && c % 2 == 0 && PowerOfTwo(c / 2))
  }

  /** `x & (c - 1)` is the remainder modulo c when c is a power of two. */
  lemma {:induction false} MaskIsRemainder(x: nat, c: nat)
    requires PowerOfTwo(c)
    ensures BitAnd(x, c - 1) == x % c
    decreases c
  {
    if c > 1 {
      var h := c / 2;
      if x == 0 {
      } else {
        MaskIsRemainder(x / 2, h);
        assert (c - 1) % 2 == 1 && (c - 1) / 2 == h - 1;
        RemainderByDigits(x, 2, h);
      }
    }
  }

  /** Digits in mixed radix: the remainder modulo a product. */
  lemma RemainderByDigits(x: nat, a: nat, b: nat)
    requires a > 0 && b > 0 && a * b > 0
    ensures x % (a * b) == x % a + a * (x / a % b)
  {
    var y := x / a;
    var q, r, lo := y / b, y % b, x % a;
    assert x == a * (q * b + r) + lo;
    assert x == q * (a * b) + (a * r + lo);
    assert a * r + a <= a * b by { assert r + 1 <= b; MulMonotone(a, r + 1, b); }
    DivModUnique(x, a * b, q, a * r + lo);
  }

  lemma MulMonotone(a: nat, x: nat, y: nat)
    requires x <= y
    ensures a * x <= a * y
  {
    assert a * y == a * x + a * (y - x);
  }

  lemma MulAtLeast(k: int, d: nat)
    ensures k >= 1 ==> k * d >= d
  {
    if k > 1 {
      MulAtLeast(k - 1, d);
      assert k * d == (k - 1) * d + d;
    }
  }

  lemma DivModUnique(x: int, d: int, q: int, r: int)
    requires d > 0 && 0 <= r < d && x == q * d + r
    ensures x / d == q && x % d == r
  {
    var q', r' := x / d, x % d;
    assert (q - q') * d == r' - r;
    MulAtLeast(q - q', d);
    MulAtLeast(q' - q, d);
  }

  /** `c & (c - 1)` is zero exactly for the powers of two: the test find_volume and f_mkfs use. */
  lemma {:induction false} PowerOfTwoTest(c: nat)
    requires c > 0
    ensures BitAnd(c, c - 1) == 0 <==> PowerOfTwo(c)
    decreases c
  {
    if c > 1 {
      if c % 2 == 0 {
        PowerOfTwoTest(c / 2);
        assert (c - 1) / 2 == c / 2 - 1;
      } else {
        assert (c - 1) / 2 == c / 2;
        BitAndSelf(c / 2);
      }
    }
  }

  lemma {:induction false} BitAndSelf(c: nat)
    ensures BitAnd(c, c) == c
  {
    if c > 0 {
      BitAndSelf(c / 2);
    }
  }

  /** ld_word at offset i of a byte sequence. */
  function LdWord(s: seq<Byte>, i: nat): (w: nat)
    requires i + 2 <= |s|
    ensures w < 0x1_0000
  {
    s[i] as int + 0x100 * (s[i + 1] as int)
  }

  /** ld_dword at offset i of a byte sequence. */
  function LdDword(s: seq<Byte>, i: nat): (w: Word32)
    requires i + 4 <= |s|
  {
    s[i] as int + 0x100 * (s[i + 1] as int) + 0x1_0000 * (s[i + 2] as int) + 0x100_0000 * (s[i + 3] as int)
  }

  lemma LdWordSlice(s: seq<Byte>, i: nat)
    requires i + 2 <= |s|
    ensures LdWord(s, i) == LdWord(s[i..i + 2], 0)
  {
  }

  lemma LdDwordSlice(s: seq<Byte>, i: nat)
    requires i + 4 <= |s|
    ensures LdDword(s, i) == LdDword(s[i..i + 4], 0)
  {
  }

  /** st_word */
  function WordBytes(w: nat): (r: seq<Byte>)
    ensures |r| == 2
  {
    [w % 0x100, w / 0x100 % 0x100]
  }

  /** st_dword */
  function DwordBytes(w: nat): (r: seq<Byte>)
    ensures |r| == 4
  {
    [w % 0x100, w / 0x100 % 0x100, w / 0x1_0000 % 0x100, w / 0x100_0000 % 0x100]
  }

  lemma LdStWord(w: nat)
    ensures LdWord(WordBytes(w), 0) == w % 0x1_0000
  {
    RemainderByDigits(w, 0x100, 0x100);
  }

  lemma LdStDword(w: nat)
    ensures LdDword(DwordBytes(w), 0) == w % 0x1_0000_0000
  {
    RemainderByDigits(w, 0x100_0000, 0x100);
    RemainderByDigits(w, 0x1_0000, 0x100);
    RemainderByDigits(w, 0x100, 0x100);
  }
}
