/** Numbers and images as sequences of bits, least significant first. */
module Bits {
  import opened Machine

  predicate Bit(n: nat, i: nat) { if i == 0 then n % 2 == 1 else Bit(n / 2, i - 1) }

  function Pow2(k: nat): (p: nat)
    ensures p > 0
  {
    if k == 0 then 1 else 2 * Pow2(k - 1)
  }

  lemma {:induction false} NoBits(i: nat)
    ensures !Bit(0, i)
  {
    if i > 0 { NoBits(i - 1); }
  }

  /** The bits of a number put together from its lowest k bits and the rest. */
  lemma {:induction false} JoinedBits(lo: nat, hi: nat, k: nat, j: nat)
    requires lo < Pow2(k)
    ensures Bit(lo + Pow2(k) * hi, j) <==> if j < k then Bit(lo, j) else Bit(hi, j - k)
  {
    if k > 0 {
      var n, rest := lo + Pow2(k) * hi, Pow2(k - 1) * hi;
      assert Pow2(k) * hi == 2 * rest by { DoubleProduct(Pow2(k - 1), hi); }
      assert n == 2 * (lo / 2 + rest) + lo % 2;
      if j > 0 { JoinedBits(lo / 2, hi, k - 1, j - 1); }
    }
  }

  lemma DoubleProduct(a: nat, b: nat)
    ensures (2 * a) * b == 2 * (a * b)
  {
  }

  /** The bits of a number cut to k bits, and of what is cut off. */
  lemma CutBits(n: nat, lo: nat, hi: nat, k: nat, j: nat)
    requires lo < Pow2(k) && n == lo + Pow2(k) * hi
    ensures Bit(lo, j) <==> j < k && Bit(n, j)
    ensures Bit(hi, j) <==> Bit(n, j + k)
  {
    JoinedBits(lo, hi, k, j);
    JoinedBits(lo, hi, k, j + k);
    NarrowBits(lo, k, j);
  }

  lemma NarrowBits(n: nat, k: nat, j: nat)
    requires n < Pow2(k)
    ensures Bit(n, j) ==> j < k
  {
    JoinedBits(n, 0, k, j);
    if j >= k { NoBits(j - k); }
  }

  /** A number is determined by its bits. */
  lemma {:induction false} SameBits(m: nat, n: nat)
    requires forall j: nat {:trigger Bit(m, j)} {:trigger Bit(n, j)} :: Bit(m, j) <==> Bit(n, j)
    ensures m == n
    decreases m + n
  {
    assert Bit(m, 0) <==> Bit(n, 0);
    if m != 0 || n != 0 {
      forall j: nat ensures Bit(m / 2, j) <==> Bit(n / 2, j) { assert Bit(m, j + 1) <==> Bit(n, j + 1); }
      SameBits(m / 2, n / 2);
    }
  }

  /** The small powers. */
  lemma Powers()
    ensures Pow2(4) == 0x10 && Pow2(8) == 0x100 && Pow2(12) == 0x1000 && Pow2(16) == 0x1_0000
    ensures Pow2(24) == 0x100_0000 && Pow2(28) == 0x1000_0000 && Pow2(32) == 0x1_0000_0000
  {
    assert Pow2(4) == 0x10;
    assert Pow2(8) == 0x100;
    assert Pow2(12) == 0x1000;
    assert Pow2(16) == 0x1_0000;
    assert Pow2(20) == 0x10_0000;
    assert Pow2(24) == 0x100_0000;
    assert Pow2(28) == 0x1000_0000;
  }

  lemma ByteBits(b: Byte, j: nat)
    ensures Bit(b, j) ==> j < 8
  {
    Powers();
    JoinedBits(b, 0, 8, j);
    if j >= 8 { NoBits(j - 8); }
  }

  /** Bit i of an image. */
  predicate ImageBit(s: seq<Byte>, i: nat)
    requires i / 8 < |s|
  {
    Bit(s[i / 8], i % 8)
  }

  /** ld_word and ld_dword: bit j of the value is the j-th bit of the image from there on. */
  lemma WordBits(s: seq<Byte>, i: nat, j: nat)
    requires i + 2 <= |s|
    ensures Bit(LdWord(s, i), j) <==> j < 16 && ImageBit(s, 8 * i + j)
  {
    Powers();
    JoinedBits(s[i], s[i + 1], 8, j);
    if j >= 8 { ByteBits(s[i + 1], j - 8); }
  }

  lemma DwordBits(s: seq<Byte>, i: nat, j: nat)
    requires i + 4 <= |s|
    ensures Bit(LdDword(s, i), j) <==> j < 32 && ImageBit(s, 8 * i + j)
  {
    Powers();
    WordBits(s, i, j);
    JoinedBits(LdWord(s, i), LdWord(s, i + 2), 16, j);
    if j >= 16 { WordBits(s, i + 2, j - 16); }
  }

  /** The byte of a number that begins at bit k. */
  lemma ByteOfBits(w: nat, lo: nat, hi: nat, k: nat, j: nat)
    requires j < 8 && lo < Pow2(k) && w == lo + Pow2(k) * hi
    ensures Bit(hi % 0x100, j) <==> Bit(w, j + k)
  {
    Byte0(hi, j);
    CutBits(w, lo, hi, k, j);
  }

  /** The four bytes of a number. */
  lemma Byte0(w: nat, j: nat)
    requires j < 8
    ensures Bit(w % 0x100, j) <==> Bit(w, j)
  {
    Powers();
    CutBits(w, w % 0x100, w / 0x100, 8, j);
  }

  lemma Byte1(w: nat, j: nat)
    requires j < 8
    ensures Bit(w / 0x100 % 0x100, j) <==> Bit(w, j + 8)
  {
    Powers();
    ByteOfBits(w, w % 0x100, w / 0x100, 8, j);
  }

  lemma Byte2(w: nat, j: nat)
    requires j < 8
    ensures Bit(w / 0x1_0000 % 0x100, j) <==> Bit(w, j + 16)
  {
    Powers();
    ByteOfBits(w, w % 0x1_0000, w / 0x1_0000, 16, j);
  }

  lemma Byte3(w: nat, j: nat)
    requires j < 8
    ensures Bit(w / 0x100_0000 % 0x100, j) <==> Bit(w, j + 24)
  {
    Powers();
    ByteOfBits(w, w % 0x100_0000, w / 0x100_0000, 24, j);
  }

  /** The j-th bit of the k-th byte. */
  lemma BitInByte(s: seq<Byte>, k: nat, j: nat)
    requires k < |s| && j < 8
    ensures ImageBit(s, 8 * k + j) <==> Bit(s[k], j)
  {
  }

  /** st_word stores the bits of a word in order. */
  lemma WordBytesBits(w: nat, k: nat, j: nat)
    requires k < 2 && j < 8
    ensures Bit(WordBytes(w)[k], j) <==> Bit(w, 8 * k + j)
  {
    if k == 0 { Byte0(w, j); } else { Byte1(w, j); }
  }

  /** st_dword stores the bits of a double word in order. */
  lemma DwordBytesBits(w: nat, k: nat, j: nat)
    requires k < 4 && j < 8
    ensures Bit(DwordBytes(w)[k], j) <==> Bit(w, 8 * k + j)
  {
    if k == 0 { Byte0(w, j); } else if k == 1 { Byte1(w, j); } else if k == 2 { Byte2(w, j); } else { Byte3(w, j); }
  }

  /** The number in n bytes from place i on, least significant byte first. */
  function Little(s: seq<Byte>, i: nat, n: nat): nat
    requires i + n <= |s|
    decreases n
  {
    if n == 0 then 0 else s[i] as int + 0x100 * Little(s, i + 1, n - 1)
  }

  lemma LoadsLittle(s: seq<Byte>, i: nat)
    ensures i + 2 <= |s| ==> LdWord(s, i) == Little(s, i, 2)
    ensures i + 4 <= |s| ==> LdDword(s, i) == Little(s, i, 4)
  {
    if i + 2 <= |s| { assert Little(s, i + 1, 1) == s[i + 1]; }
    if i + 4 <= |s| {
      assert Little(s, i + 3, 1) == s[i + 3];
      assert Little(s, i + 2, 2) == s[i + 2] as int + 0x100 * (s[i + 3] as int);
    }
  }

  lemma StoresLittle(w: nat)
    ensures Little(WordBytes(w), 0, 2) == w % 0x1_0000 && Little(DwordBytes(w), 0, 4) == w % 0x1_0000_0000
  {
    LdStWord(w);
    LdStDword(w);
    LoadsLittle(WordBytes(w), 0);
    LoadsLittle(DwordBytes(w), 0);
  }

  /** The bytes of a word or double word in place. */
  lemma WordLittle(s: seq<Byte>, i: nat, w: nat)
    requires i + 2 <= |s| && s[i] == WordBytes(w)[0] && s[i + 1] == WordBytes(w)[1]
    ensures Little(s, i, 2) == w % 0x1_0000
  {
    LdStWord(w);
    LoadsLittle(s, i);
  }

  lemma DwordLittle(s: seq<Byte>, i: nat, w: Word32)
    requires i + 4 <= |s|
    requires s[i] == DwordBytes(w)[0] && s[i + 1] == DwordBytes(w)[1] && s[i + 2] == DwordBytes(w)[2] && s[i + 3] == DwordBytes(w)[3]
    ensures Little(s, i, 4) == w
  {
    LdStDword(w);
    LoadsLittle(s, i);
    assert LdDword(s, i) == LdDword(DwordBytes(w), 0);
  }

  /** The characters of t from byte i on. */
  ghost predicate Text(s: seq<Byte>, i: nat, t: string) {
    i + |t| <= |s| && forall k {:trigger t[k]} :: 0 <= k < |t| ==> s[i + k] as int == t[k] as int
  }

  ghost predicate Zeros(s: seq<Byte>, i: nat, j: nat) {
    j <= |s| && forall k {:trigger s[k]} :: i <= k < j ==> s[k] == 0
  }
}
