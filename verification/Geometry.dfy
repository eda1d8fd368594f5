/** Layout of a FAT volume and the packed FAT entry array on a flat image of the disk. */
module Geometry {
  import opened Machine

  datatype FatType = Fat12 | Fat16 | Fat32

  const MAX_FAT12: nat := 0xFF5
  const MAX_FAT16: nat := 0xFFF5
  const MAX_FAT32: nat := 0x0FFF_FFF5

  /** The layout fields of a FATFS object. */
  datatype Geo = Geo(
    fsType: FatType,
    nFats: nat,
    csize: nat,
    nRootdir: nat,
    nFatent: nat,
    fsize: nat,
    volbase: nat,
    fatbase: nat,
    dirbase: nat,
    database: nat)

  /** Largest number of FAT entries of each type. */
  function MaxEntries(t: FatType): nat {
    match t
    case Fat12 => MAX_FAT12 + 2
    case Fat16 => MAX_FAT16 + 2
    case Fat32 => MAX_FAT32 + 2
  }

  /** All ones in the width of an entry. */
  function EntryMask(t: FatType): nat {
    match t
    case Fat12 => 0xFFF
    case Fat16 => 0xFFFF
    case Fat32 => 0x0FFF_FFFF
  }

  /** A value cut to the width of an entry. */
  function Trim(t: FatType, v: nat): nat {
    match t
    case Fat12 => v % 0x1000
    case Fat16 => v % 0x1_0000
    case Fat32 => v % 0x1000_0000
  }

  /** Cluster numbers fit an entry; the end mark is past every cluster and is not the error code. */
  lemma TrimFacts(t: FatType, v: nat)
    ensures v <= EntryMask(t) ==> Trim(t, v) == v
    ensures Trim(t, 0xFFFF_FFFF) == EntryMask(t)
    ensures MaxEntries(t) <= EntryMask(t) < NONE
  {
    match t
    case Fat12 => assert 0xFFFF_FFFF == 0xF_FFFF * 0x1000 + 0xFFF;
    case Fat16 =>
    case Fat32 =>
  }

  /** Bytes a FAT of n entries occupies. */
  function FatBytes(t: FatType, n: nat): nat {
    match t
    case Fat12 => n * 3 / 2 + n % 2
    case Fat16 => n * 2
    case Fat32 => n * 4
  }

  /** Offset of the first byte of entry c from the start of the FAT. */
  function EntryOffset(t: FatType, c: nat): nat {
    match t
    case Fat12 => c + c / 2
    case Fat16 => c * 2
    case Fat32 => c * 4
  }

  function EntrySpan(t: FatType): nat { if t == Fat32 then 4 else 2 }

  /** The FAT area: one or two copies, each large enough for every entry. */
  ghost predicate FatOk(g: Geo) {
    && 1 <= g.nFats <= 2
    && 2 < g.nFatent <= MaxEntries(g.fsType)
    && 0 < g.fatbase
    && 0 < g.fsize
    && (forall c {:trigger EntryAddr(g, c)} :: 0 <= c < g.nFatent ==> EntryOffset(g.fsType, c) + EntrySpan(g.fsType) <= 512 * g.fsize)
  }

  /** Sector after the last FAT. */
  function FatEnd(g: Geo): nat { if g.nFats == 2 then g.fatbase + 2 * g.fsize else g.fatbase + g.fsize }

  /** The FAT area lies inside a disk image of `size` bytes. */
  ghost predicate Fits(g: Geo, size: nat) { FatOk(g) && FatEnd(g) <= 0x1_0000_0000 && 512 * FatEnd(g) <= size }

  /** Sectors and bytes of the first FAT, and of its copy. */
  predicate InFat1(g: Geo, s: int) { g.fatbase <= s < g.fatbase + g.fsize }
  predicate InFat2(g: Geo, s: int) { g.nFats == 2 && g.fatbase + g.fsize <= s < g.fatbase + 2 * g.fsize }
  predicate Fat1Byte(g: Geo, a: int) { 512 * g.fatbase <= a < 512 * (g.fatbase + g.fsize) }

  /** Address in the second FAT of the byte that mirrors address a of the first. */
  function Twin(g: Geo, a: nat): nat { a + 512 * g.fsize }

  /** Image address of the first byte of entry c. */
  function EntryAddr(g: Geo, c: nat): nat { 512 * g.fatbase + EntryOffset(g.fsType, c) }

  lemma EntryInFat(g: Geo, c: nat)
    requires FatOk(g) && c < g.nFatent
    ensures Fat1Byte(g, EntryAddr(g, c)) && Fat1Byte(g, EntryAddr(g, c) + EntrySpan(g.fsType) - 1)
  {
  }

  /** The bytes of an entry hold a value: get_fat. */
  function Decode(t: FatType, c: nat, p: seq<Byte>): nat
    requires |p| == EntrySpan(t)
  {
    match t
    case Fat12 => if c % 2 == 1 then LdWord(p, 0) / 16 else LdWord(p, 0) % 0x1000
    case Fat16 => LdWord(p, 0)
    case Fat32 => LdDword(p, 0) % 0x1000_0000
  }

  /** put_fat on FAT12: the first and the second byte of entry c, given the byte p that is there. */
  function First12(c: nat, v: nat, p: Byte): Byte { if c % 2 == 1 then p % 16 + 16 * (v % 16) else v % 0x100 }
  function Second12(c: nat, v: nat, p: Byte): Byte { if c % 2 == 1 then v / 16 % 0x100 else p / 16 * 16 + v / 0x100 % 16 }

  /** put_fat: the bytes that replace the bytes p of entry c. */
  function Encode(t: FatType, c: nat, v: nat, p: seq<Byte>): (r: seq<Byte>)
    requires |p| == EntrySpan(t)
    ensures |r| == |p|
  {
    match t
    case Fat12 =>
      [First12(c, v, p[0]), Second12(c, v, p[1])]
    case Fat16 => WordBytes(v)
    case Fat32 => DwordBytes(v % 0x1000_0000 + LdDword(p, 0) / 0x1000_0000 * 0x1000_0000)
  }

  lemma Quotient16(lo: nat, q: nat)
    requires lo < 16
    ensures (lo + 16 * q) / 16 == q && (lo + 16 * q) % 16 == lo
  {
  }

  lemma Remainder12(lo: nat, mid: nat, hi: nat)
    requires lo < 0x100 && mid < 16
    ensures (lo + 0x100 * (mid + 16 * hi)) % 0x1000 == lo + 0x100 * mid
  {
  }

  lemma DecodeEncode12(c: nat, v: nat, p: seq<Byte>)
    requires |p| == 2
    ensures Decode(Fat12, c, Encode(Fat12, c, v, p)) == v % 0x1000
  {
    if c % 2 == 1 {
      RemainderByDigits(v, 16, 0x100);
      Quotient16(p[0] % 16, v % 16 + 16 * (v / 16 % 0x100));
    } else {
      RemainderByDigits(v, 0x100, 16);
      Remainder12(v % 0x100, v / 0x100 % 16, p[1] / 16);
    }
  }

  lemma DecodeEncode32(c: nat, v: nat, p: seq<Byte>)
    requires |p| == 4
    ensures Decode(Fat32, c, Encode(Fat32, c, v, p)) == v % 0x1000_0000
    ensures LdDword(Encode(Fat32, c, v, p), 0) / 0x1000_0000 == LdDword(p, 0) / 0x1000_0000
  {
    var w := v % 0x1000_0000 + LdDword(p, 0) / 0x1000_0000 * 0x1000_0000;
    Nibble7(v % 0x1000_0000, LdDword(p, 0) / 0x1000_0000);
    LdStDword(w);
  }

  lemma Nibble7(lo: nat, hi: nat)
    requires lo < 0x1000_0000 && hi < 16
    ensures var w := lo + hi * 0x1000_0000; w < 0x1_0000_0000 && w % 0x1_0000_0000 == w && w % 0x1000_0000 == lo && w / 0x1000_0000 == hi
  {
  }

  lemma DecodeEncode(t: FatType, c: nat, v: nat, p: seq<Byte>)
    requires |p| == EntrySpan(t)
    ensures Decode(t, c, Encode(t, c, v, p)) == Trim(t, v)
  {
    match t
    case Fat12 => DecodeEncode12(c, v, p);
    case Fat16 => LdStWord(v);
    case Fat32 => DecodeEncode32(c, v, p);
  }

  /** An even FAT12 entry and its successor share a byte: writing the even one keeps the other's half. */
  lemma UpperNibbleKept(c: nat, v: nat, x: Byte, y: Byte, z: Byte)
    requires c % 2 == 0
    ensures Decode(Fat12, c + 1, [Encode(Fat12, c, v, [x, y])[1], z]) == Decode(Fat12, c + 1, [y, z])
  {
    Quotient16(v / 0x100 % 16, y / 16 + 16 * z);
    Quotient16(y % 16, y / 16 + 16 * z);
  }

  /** ... and writing the odd one keeps the even one's half. */
  lemma LowerNibbleKept(c: nat, v: nat, x: Byte, y: Byte, z: Byte)
    requires c % 2 == 0
    ensures Decode(Fat12, c, [x, Encode(Fat12, c + 1, v, [y, z])[0]]) == Decode(Fat12, c, [x, y])
  {
    Remainder12(x, y % 16, v % 16);
    Remainder12(x, y % 16, y / 16);
  }

  /** Store a byte; a byte of the first FAT is also stored in its copy. */
  function SetByte(g: Geo, s: seq<Byte>, a: nat, v: Byte): (r: seq<Byte>)
    requires a < |s|
    requires g.nFats == 2 && Fat1Byte(g, a) ==> Twin(g, a) < |s|
    ensures |r| == |s|
  {
    if g.nFats == 2 && Fat1Byte(g, a) then s[a := v][Twin(g, a) := v] else s[a := v]
  }

  /** Store bytes from address a on, one at a time. */
  function Splice(g: Geo, s: seq<Byte>, a: nat, bs: seq<Byte>): (r: seq<Byte>)
    requires Fits(g, |s|) && (bs == [] || (Fat1Byte(g, a) && Fat1Byte(g, a + |bs| - 1)))
    ensures |r| == |s|
    decreases |bs|
  {
    if bs == [] then s else Splice(g, SetByte(g, s, a, bs[0]), a + 1, bs[1..])
  }

  /** r is s with the byte at a replaced, and its mirror if it has one. */
  ghost predicate Stepped(g: Geo, s: seq<Byte>, r: seq<Byte>, a: nat, v: Byte) {
    && a < |s|
    && (g.nFats == 2 && Fat1Byte(g, a) ==> Twin(g, a) < |s|)
    && r == SetByte(g, s, a, v)
  }

  lemma SteppedElsewhere(g: Geo, s: seq<Byte>, r: seq<Byte>, a: nat, v: Byte, b: nat)
    requires Fits(g, |s|) && Stepped(g, s, r, a, v) && Fat1Byte(g, a) && Fat1Byte(g, b) && a != b
    ensures |r| == |s| && b < |s| && r[b] == s[b]
  {
  }

  lemma SpliceTwo(g: Geo, s0: seq<Byte>, s1: seq<Byte>, s2: seq<Byte>, a: nat, bs: seq<Byte>)
    requires Fits(g, |s0|) && |bs| == 2 && Fat1Byte(g, a) && Fat1Byte(g, a + 1)
    requires Stepped(g, s0, s1, a, bs[0]) && Stepped(g, s1, s2, a + 1, bs[1])
    ensures Splice(g, s0, a, bs) == s2
  {
    assert bs[1..][1..] == [];
    assert Splice(g, s1, a + 1, bs[1..]) == Splice(g, s2, a + 2, bs[1..][1..]);
  }

  lemma {:induction false} SpliceAppend(g: Geo, s: seq<Byte>, a: nat, bs: seq<Byte>, cs: seq<Byte>)
    requires Fits(g, |s|) && bs != [] && cs != [] && Fat1Byte(g, a) && Fat1Byte(g, a + |bs| + |cs| - 1)
    ensures Splice(g, s, a, bs + cs) == Splice(g, Splice(g, s, a, bs), a + |bs|, cs)
    decreases |bs|
  {
    var s' := SetByte(g, s, a, bs[0]);
    assert (bs + cs)[1..] == bs[1..] + cs;
    if |bs| == 1 {
      assert bs[1..] + cs == cs;
    } else {
      SpliceAppend(g, s', a + 1, bs[1..], cs);
    }
  }

  /** r is s with bs at address a of the first FAT; bytes outside both FATs are unchanged. */
  ghost predicate Spliced(g: Geo, s: seq<Byte>, r: seq<Byte>, a: nat, bs: seq<Byte>) {
    && |r| == |s|
    && (forall i {:trigger r[i]} :: 0 <= i < |s| && Fat1Byte(g, i) ==> r[i] == if a <= i < a + |bs| then bs[i - a] else s[i])
    && (forall i {:trigger r[i]} :: 0 <= i < |s| && OutsideFats(g, i) ==> r[i] == s[i])
  }

  /** Bytes outside both FATs. */
  predicate OutsideFats(g: Geo, a: int) { !(512 * g.fatbase <= a < 512 * FatEnd(g)) }

  lemma {:induction false} SpliceIsSpliced(g: Geo, s: seq<Byte>, a: nat, bs: seq<Byte>)
    requires Fits(g, |s|) && (bs == [] || (Fat1Byte(g, a) && Fat1Byte(g, a + |bs| - 1)))
    ensures Spliced(g, s, Splice(g, s, a, bs), a, bs)
    decreases |bs|
  {
    if bs != [] {
      var s1 := SetByte(g, s, a, bs[0]);
      SetByteElsewhere(g, s, a, bs[0]);
      SpliceIsSpliced(g, s1, a + 1, bs[1..]);
      var r := Splice(g, s, a, bs);
      assert r == Splice(g, s1, a + 1, bs[1..]);
      forall i {:trigger r[i]} | 0 <= i < |s| && Fat1Byte(g, i) ensures r[i] == if a <= i < a + |bs| then bs[i - a] else s[i] {
        assert a < i < a + |bs| ==> bs[1..][i - (a + 1)] == bs[i - a];
        assert i != a ==> s1[i] == s[i];
      }
    }
  }

  lemma SetByteElsewhere(g: Geo, s: seq<Byte>, a: nat, v: Byte)
    requires Fits(g, |s|) && a < |s|
    ensures var r := SetByte(g, s, a, v);
      && r[a] == v
      && forall i {:trigger r[i]} :: 0 <= i < |s| && i != a && !(g.nFats == 2 && Fat1Byte(g, a) && i == Twin(g, a)) ==> r[i] == s[i]
  {
  }

  lemma SetByteKeepsMirror(g: Geo, s: seq<Byte>, a: nat, v: Byte)
    requires Fits(g, |s|) && a < |s| && Mirrored(g, s) && !InFat2(g, a / 512)
    ensures Mirrored(g, SetByte(g, s, a, v))
  {
  }

  lemma {:induction false} SpliceKeepsMirror(g: Geo, s: seq<Byte>, a: nat, bs: seq<Byte>)
    requires Fits(g, |s|) && (bs == [] || (Fat1Byte(g, a) && Fat1Byte(g, a + |bs| - 1)))
    requires Mirrored(g, s)
    ensures Mirrored(g, Splice(g, s, a, bs))
    decreases |bs|
  {
    if bs != [] {
      SpliceKeepsMirror(g, SetByte(g, s, a, bs[0]), a + 1, bs[1..]);
    }
  }

  /** The copy of the FAT holds what the FAT holds. */
  ghost predicate Mirrored(g: Geo, s: seq<Byte>)
    requires Fits(g, |s|)
  {
    g.nFats == 2 ==> forall a {:trigger Twin(g, a)} :: Fat1Byte(g, a) ==> s[Twin(g, a)] == s[a]
  }

  /** The bytes of entry c. */
  function EntryBytes(g: Geo, s: seq<Byte>, c: nat): (p: seq<Byte>)
    requires Fits(g, |s|) && c < g.nFatent
    ensures |p| == EntrySpan(g.fsType)
  {
    EntryInFat(g, c);
    s[EntryAddr(g, c)..EntryAddr(g, c) + EntrySpan(g.fsType)]
  }

  /** get_fat on a flat image. */
  function Entry(g: Geo, s: seq<Byte>, c: nat): nat
    requires Fits(g, |s|) && c < g.nFatent
  {
    Decode(g.fsType, c, EntryBytes(g, s, c))
  }

  /** put_fat on a flat image. */
  function PutEntry(g: Geo, s: seq<Byte>, c: nat, v: nat): (r: seq<Byte>)
    requires Fits(g, |s|) && c < g.nFatent
    ensures |r| == |s|
  {
    EntryInFat(g, c);
    Splice(g, s, EntryAddr(g, c), Encode(g.fsType, c, v, EntryBytes(g, s, c)))
  }

  lemma PutEntryBytes(g: Geo, s: seq<Byte>, c: nat, v: nat)
    requires Fits(g, |s|) && c < g.nFatent
    ensures EntryBytes(g, PutEntry(g, s, c, v), c) == Encode(g.fsType, c, v, EntryBytes(g, s, c))
    ensures Spliced(g, s, PutEntry(g, s, c, v), EntryAddr(g, c), Encode(g.fsType, c, v, EntryBytes(g, s, c)))
  {
    EntryInFat(g, c);
    SpliceIsSpliced(g, s, EntryAddr(g, c), Encode(g.fsType, c, v, EntryBytes(g, s, c)));
  }

  /** Array law: the entry reads back as the value cut to the entry's width. */
  lemma PutThenGet(g: Geo, s: seq<Byte>, c: nat, v: nat)
    requires Fits(g, |s|) && c < g.nFatent
    ensures Entry(g, PutEntry(g, s, c, v), c) == Trim(g.fsType, v)
  {
    PutEntryBytes(g, s, c, v);
    DecodeEncode(g.fsType, c, v, EntryBytes(g, s, c));
  }

  /** Entries that are not FAT12 partners occupy disjoint bytes. */
  predicate ShareByte(t: FatType, c: nat, d: nat) {
    t == Fat12 && ((c % 2 == 0 && d == c + 1) || (d % 2 == 0 && c == d + 1))
  }

  lemma ApartOrSharing(t: FatType, c: nat, d: nat)
    requires c < d
    ensures EntryOffset(t, c) + EntrySpan(t) <= EntryOffset(t, d) || ShareByte(t, c, d)
    ensures ShareByte(t, c, d) ==> EntryOffset(t, d) == EntryOffset(t, c) + 1
  {
  }

  lemma PutKeepsFarEntry(g: Geo, s: seq<Byte>, c: nat, v: nat, d: nat)
    requires Fits(g, |s|) && c < g.nFatent && d < g.nFatent && c != d && !ShareByte(g.fsType, c, d)
    ensures EntryBytes(g, PutEntry(g, s, c, v), d) == EntryBytes(g, s, d)
  {
    PutEntryBytes(g, s, c, v);
    EntryInFat(g, d);
    if c < d { ApartOrSharing(g.fsType, c, d); } else { ApartOrSharing(g.fsType, d, c); }
  }

  lemma Pair(s: seq<Byte>, x: Byte, y: Byte)
    requires |s| == 2 && s[0] == x && s[1] == y
    ensures s == [x, y]
  {
  }

  lemma UpperPartnerBytes(g: Geo, s: seq<Byte>, c: nat, v: nat, d: nat)
    requires Fits(g, |s|) && c < g.nFatent && d < g.nFatent && ShareByte(g.fsType, c, d) && c < d
    ensures var p, q := EntryBytes(g, s, c), EntryBytes(g, s, d);
            && p == [p[0], p[1]] && q == [p[1], q[1]]
            && EntryBytes(g, PutEntry(g, s, c, v), d) == [Encode(Fat12, c, v, p)[1], q[1]]
  {
    PutEntryBytes(g, s, c, v);
    EntryInFat(g, d);
    ApartOrSharing(Fat12, c, d);
    var p, q, r := EntryBytes(g, s, c), EntryBytes(g, s, d), PutEntry(g, s, c, v);
    var a := EntryAddr(g, c);
    assert EntryAddr(g, d) == a + 1;
    assert r[a + 1] == Encode(Fat12, c, v, p)[1] && r[a + 2] == s[a + 2];
    Pair(p, p[0], p[1]);
    Pair(q, p[1], q[1]);
    Pair(EntryBytes(g, r, d), Encode(Fat12, c, v, p)[1], q[1]);
  }

  lemma LowerPartnerBytes(g: Geo, s: seq<Byte>, c: nat, v: nat, d: nat)
    requires Fits(g, |s|) && c < g.nFatent && d < g.nFatent && ShareByte(g.fsType, c, d) && d < c
    ensures var p, q := EntryBytes(g, s, c), EntryBytes(g, s, d);
            && p == [q[1], p[1]] && q == [q[0], q[1]]
            && EntryBytes(g, PutEntry(g, s, c, v), d) == [q[0], Encode(Fat12, c, v, p)[0]]
  {
    PutEntryBytes(g, s, c, v);
    EntryInFat(g, d);
    ApartOrSharing(Fat12, d, c);
    var p, q, r := EntryBytes(g, s, c), EntryBytes(g, s, d), PutEntry(g, s, c, v);
    var a := EntryAddr(g, d);
    assert EntryAddr(g, c) == a + 1;
    assert r[a] == s[a] && r[a + 1] == Encode(Fat12, c, v, p)[0];
    Pair(q, q[0], q[1]);
    Pair(p, q[1], p[1]);
    Pair(EntryBytes(g, r, d), q[0], Encode(Fat12, c, v, p)[0]);
  }

  lemma PutKeepsPartner(g: Geo, s: seq<Byte>, c: nat, v: nat, d: nat)
    requires Fits(g, |s|) && c < g.nFatent && d < g.nFatent && ShareByte(g.fsType, c, d)
    ensures Entry(g, PutEntry(g, s, c, v), d) == Entry(g, s, d)
  {
    var p, q := EntryBytes(g, s, c), EntryBytes(g, s, d);
    if c < d {
      UpperPartnerBytes(g, s, c, v, d);
      UpperNibbleKept(c, v, p[0], p[1], q[1]);
    } else {
      LowerPartnerBytes(g, s, c, v, d);
      LowerNibbleKept(d, v, q[0], q[1], p[1]);
    }
  }

  /** Array law: every other entry, the reserved ones included, keeps its value. */
  lemma PutKeepsOthers(g: Geo, s: seq<Byte>, c: nat, v: nat, d: nat)
    requires Fits(g, |s|) && c < g.nFatent && d < g.nFatent && c != d
    ensures Entry(g, PutEntry(g, s, c, v), d) == Entry(g, s, d)
  {
    if ShareByte(g.fsType, c, d) { PutKeepsPartner(g, s, c, v, d); } else { PutKeepsFarEntry(g, s, c, v, d); }
  }

  /** put_fat keeps the reserved upper four bits of a FAT32 entry. */
  lemma PutKeepsUpperBits(g: Geo, s: seq<Byte>, c: nat, v: nat)
    requires Fits(g, |s|) && c < g.nFatent && g.fsType == Fat32
    ensures LdDword(EntryBytes(g, PutEntry(g, s, c, v), c), 0) / 0x1000_0000 == LdDword(EntryBytes(g, s, c), 0) / 0x1000_0000
  {
    PutEntryBytes(g, s, c, v);
    DecodeEncode32(c, v, EntryBytes(g, s, c));
  }

  /** The end mark put_fat writes reads back past the last entry and is never the error code. */
  lemma EndMarkReadsAsEnd(g: Geo, s: seq<Byte>, c: nat)
    requires Fits(g, |s|) && c < g.nFatent
    ensures g.nFatent <= Entry(g, PutEntry(g, s, c, 0xFFFF_FFFF), c) < NONE
  {
    PutThenGet(g, s, c, 0xFFFF_FFFF);
    TrimFacts(g.fsType, 0);
  }

  /** Two images agree outside the FATs. */
  ghost predicate SameOutside(g: Geo, s: seq<Byte>, r: seq<Byte>) {
    |r| == |s| && forall i {:trigger r[i]} :: 0 <= i < |s| && OutsideFats(g, i) ==> r[i] == s[i]
  }

  lemma PutStaysInside(g: Geo, s: seq<Byte>, c: nat, v: nat)
    requires Fits(g, |s|) && c < g.nFatent
    ensures SameOutside(g, s, PutEntry(g, s, c, v))
  {
    PutEntryBytes(g, s, c, v);
  }

  /** `fat` is the table of an image: what get_fat reports for every entry. */
  ghost predicate IsTable(g: Geo, s: seq<Byte>, fat: seq<nat>)
    requires Fits(g, |s|)
  {
    |fat| == g.nFatent && forall c {:trigger Entry(g, s, c)} :: 0 <= c < g.nFatent ==> fat[c] == Entry(g, s, c)
  }

  /** put_fat is an update of the table and changes nothing outside the FATs. */
  lemma TableAfterPut(g: Geo, s: seq<Byte>, fat: seq<nat>, c: nat, v: nat)
    requires Fits(g, |s|) && c < g.nFatent && IsTable(g, s, fat)
    ensures IsTable(g, PutEntry(g, s, c, v), fat[c := Trim(g.fsType, v)])
    ensures SameOutside(g, s, PutEntry(g, s, c, v))
  {
    PutStaysInside(g, s, c, v);
    var r := PutEntry(g, s, c, v);
    forall d {:trigger Entry(g, r, d)} | 0 <= d < g.nFatent
      ensures fat[c := Trim(g.fsType, v)][d] == Entry(g, r, d)
    {
      if d == c { PutThenGet(g, s, c, v); } else { PutKeepsOthers(g, s, c, v, d); }
    }
  }

  lemma EntryBound(g: Geo, s: seq<Byte>, c: nat)
    requires Fits(g, |s|) && c < g.nFatent
    ensures Entry(g, s, c) <= EntryMask(g.fsType)
  {
  }

  /** Images that agree on the FATs hold the same table and mirror alike. */
  lemma TableFrame(g: Geo, s: seq<Byte>, r: seq<Byte>, fat: seq<nat>)
    requires Fits(g, |s|) && |r| == |s| && IsTable(g, s, fat) && Mirrored(g, s)
    requires forall a {:trigger r[a]} :: 0 <= a < |s| && !OutsideFats(g, a) ==> r[a] == s[a]
    ensures IsTable(g, r, fat) && Mirrored(g, r)
  {
    forall c {:trigger Entry(g, r, c)} | 0 <= c < g.nFatent ensures fat[c] == Entry(g, r, c) {
      EntryInFat(g, c);
      assert EntryBytes(g, r, c) == EntryBytes(g, s, c);
      assert fat[c] == Entry(g, s, c);
    }
  }

  /** An image has one table. */
  lemma TableIsUnique(g: Geo, s: seq<Byte>, f: seq<nat>, f': seq<nat>)
    requires Fits(g, |s|) && IsTable(g, s, f) && IsTable(g, s, f')
    ensures f == f'
  {
    forall c | 0 <= c < g.nFatent ensures f[c] == f'[c] { assert f[c] == Entry(g, s, c); }
  }
}
