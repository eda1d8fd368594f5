/** The FAT as a row of bits: entry c of width w begins at bit w * c, for all three types alike. */
module FatBits {
  import opened Machine
  import opened Bits
  import opened Geometry

  /** How far apart entries are, and how many bits of an entry count. */
  function Stride(t: FatType): nat {
    match t
    case Fat12 => 12
    case Fat16 => 16
    case Fat32 => 32
  }

  function Width(t: FatType): nat { if t == Fat32 then 28 else Stride(t) }

  /** The bit of the image that is bit j of entry c. */
  function EntryBit(g: Geo, c: nat, j: nat): nat { 8 * (512 * g.fatbase) + Stride(g.fsType) * c + j }

  /** The bits of an entry lie in the first FAT. */
  lemma EntryBitInFat(g: Geo, c: nat, j: nat)
    requires FatOk(g) && c < g.nFatent && j < Width(g.fsType)
    ensures Fat1Byte(g, EntryBit(g, c, j) / 8)
  {
    EntryInFat(g, c);
    FirstBit(g, c);
  }

  /** Where the bits of an entry begin among those of its bytes. */
  function Shift(t: FatType, c: nat): nat { if t == Fat12 && c % 2 == 1 then 4 else 0 }

  lemma FirstBit(g: Geo, c: nat)
    ensures EntryBit(g, c, 0) == 8 * EntryAddr(g, c) + Shift(g.fsType, c)
  {
  }

  /** The value has the bits of entry c, and no others. */
  ghost predicate HasBits(g: Geo, s: seq<Byte>, c: nat, v: nat)
    requires Fits(g, |s|) && c < g.nFatent
  {
    forall j: nat {:trigger HasBit(g, s, c, v, j)} :: HasBit(g, s, c, v, j)
  }

  /** Bit j of the value is bit j of entry c; above the width of an entry there is none. */
  ghost predicate HasBit(g: Geo, s: seq<Byte>, c: nat, v: nat, j: nat)
    requires Fits(g, |s|) && c < g.nFatent
  {
    Bit(v, j) <==> j < Width(g.fsType) && EntryBit(g, c, j) / 8 < |s| && ImageBit(s, EntryBit(g, c, j))
  }

  lemma SliceBit(s: seq<Byte>, a: nat, n: nat, i: nat)
    requires a + n <= |s| && i / 8 < n
    ensures ImageBit(s[a..a + n], i) <==> ImageBit(s, 8 * a + i)
  {
    assert (8 * a + i) / 8 == a + i / 8 && (8 * a + i) % 8 == i % 8;
  }

  lemma Decode12Bits(c: nat, p: seq<Byte>, j: nat)
    requires |p| == 2
    ensures Bit(Decode(Fat12, c, p), j) <==> j < 12 && ImageBit(p, j + Shift(Fat12, c))
  {
    Powers();
    var w := LdWord(p, 0);
    if c % 2 == 1 {
      CutBits(w, w % 16, w / 16, 4, j);
      WordBits(p, 0, j + 4);
    } else {
      CutBits(w, w % 0x1000, w / 0x1000, 12, j);
      WordBits(p, 0, j);
    }
  }

  lemma DecodeBits(t: FatType, c: nat, p: seq<Byte>, j: nat)
    requires |p| == EntrySpan(t)
    ensures Bit(Decode(t, c, p), j) <==> j < Width(t) && ImageBit(p, j + Shift(t, c))
  {
    match t
    case Fat12 => Decode12Bits(c, p, j);
    case Fat16 => WordBits(p, 0, j);
    case Fat32 =>
      Powers();
      CutBits(LdDword(p, 0), LdDword(p, 0) % 0x1000_0000, LdDword(p, 0) / 0x1000_0000, 28, j);
      DwordBits(p, 0, j);
  }

  /** get_fat reads the bits of the entry. */
  lemma EntryHasBits(g: Geo, s: seq<Byte>, c: nat)
    requires Fits(g, |s|) && c < g.nFatent
    ensures HasBits(g, s, c, Entry(g, s, c))
  {
    var v := Entry(g, s, c);
    forall j: nat {:trigger HasBit(g, s, c, v, j)} ensures HasBit(g, s, c, v, j) { EntryHasBit(g, s, c, j); }
  }

  lemma EntryHasBit(g: Geo, s: seq<Byte>, c: nat, j: nat)
    requires Fits(g, |s|) && c < g.nFatent
    ensures HasBit(g, s, c, Entry(g, s, c), j)
  {
    var p, a := EntryBytes(g, s, c), EntryAddr(g, c);
    FirstBit(g, c);
    DecodeBits(g.fsType, c, p, j);
    if j < Width(g.fsType) {
      EntryBitInFat(g, c, j);
      SliceBit(s, a, EntrySpan(g.fsType), j + Shift(g.fsType, c));
    }
  }

  /** A table holds what the bits of the FAT say, and nothing else does. */
  lemma TableIsBits(g: Geo, s: seq<Byte>, fat: seq<nat>)
    requires Fits(g, |s|)
    ensures IsTable(g, s, fat) <==> |fat| == g.nFatent && forall c {:trigger fat[c]} :: 0 <= c < g.nFatent ==> HasBits(g, s, c, fat[c])
  {
    if IsTable(g, s, fat) {
      forall c {:trigger fat[c]} | 0 <= c < g.nFatent ensures HasBits(g, s, c, fat[c]) {
        assert fat[c] == Entry(g, s, c);
        EntryHasBits(g, s, c);
      }
    } else if |fat| == g.nFatent && forall c {:trigger fat[c]} :: 0 <= c < g.nFatent ==> HasBits(g, s, c, fat[c]) {
      forall c {:trigger Entry(g, s, c)} | 0 <= c < g.nFatent ensures fat[c] == Entry(g, s, c) { OneValue(g, s, c, fat[c]); }
      assert false;
    }
  }

  lemma OneValue(g: Geo, s: seq<Byte>, c: nat, v: nat)
    requires Fits(g, |s|) && c < g.nFatent && HasBits(g, s, c, v)
    ensures v == Entry(g, s, c)
  {
    var e := Entry(g, s, c);
    EntryHasBits(g, s, c);
    forall j: nat {:trigger Bit(v, j)} {:trigger Bit(e, j)} ensures Bit(v, j) <==> Bit(e, j) { assert HasBit(g, s, c, v, j) && HasBit(g, s, c, e, j); }
    SameBits(v, e);
  }

  /** From s to r the bits of entry c became the lowest ones of v; every other bit of the first FAT is the same. */
  ghost predicate BitsPut(g: Geo, s: seq<Byte>, r: seq<Byte>, c: nat, v: nat) {
    |r| == |s| && forall i: nat {:trigger ImageBit(r, i)} :: Fat1Byte(g, i / 8) && i / 8 < |s| ==>
      (ImageBit(r, i) <==> if EntryBit(g, c, 0) <= i < EntryBit(g, c, Width(g.fsType)) then Bit(v, i - EntryBit(g, c, 0)) else ImageBit(s, i))
  }

  lemma First12Bits(c: nat, v: nat, p: Byte, j: nat)
    requires j < 8
    ensures Bit(First12(c, v, p), j) <==> if j < Shift(Fat12, c) then Bit(p, j) else Bit(v, j - Shift(Fat12, c))
  {
    Powers();
    if c % 2 == 1 {
      JoinedBits(p % 16, v % 16, 4, j);
      CutBits(p, p % 16, p / 16, 4, j);
      if j >= 4 { CutBits(v, v % 16, v / 16, 4, j - 4); }
    } else {
      Byte0(v, j);
    }
  }

  lemma Second12Bits(c: nat, v: nat, p: Byte, j: nat)
    requires j < 8
    ensures Bit(Second12(c, v, p), j) <==> if 8 + j < Shift(Fat12, c) + 12 then Bit(v, 8 + j - Shift(Fat12, c)) else Bit(p, j)
  {
    Powers();
    if c % 2 == 1 {
      Byte0(v / 16, j);
      CutBits(v, v % 16, v / 16, 4, j);
    } else {
      JoinedBits(v / 0x100 % 16, p / 16, 4, j);
      CutBits(v / 0x100, v / 0x100 % 16, v / 0x1000, 4, j);
      CutBits(v, v % 0x100, v / 0x100, 8, j);
      if j >= 4 { CutBits(p, p % 16, p / 16, 4, j - 4); }
    }
  }

  lemma Double32Bits(v: nat, p: seq<Byte>, i: nat)
    requires |p| == 4 && i < 32
    ensures Bit(v % 0x1000_0000 + LdDword(p, 0) / 0x1000_0000 * 0x1000_0000, i) <==> if i < 28 then Bit(v, i) else ImageBit(p, i)
  {
    Powers();
    JoinedBits(v % 0x1000_0000, LdDword(p, 0) / 0x1000_0000, 28, i);
    CutBits(v, v % 0x1000_0000, v / 0x1000_0000, 28, i);
    if i >= 28 {
      CutBits(LdDword(p, 0), LdDword(p, 0) % 0x1000_0000, LdDword(p, 0) / 0x1000_0000, 28, i - 28);
      DwordBits(p, 0, i);
    }
  }

  /** The bytes put_fat makes of an entry's bytes. */
  lemma EncodeBits(t: FatType, c: nat, v: nat, p: seq<Byte>, k: nat, j: nat)
    requires |p| == EntrySpan(t) && k < |p| && j < 8
    ensures Bit(Encode(t, c, v, p)[k], j) <==>
      if Shift(t, c) <= 8 * k + j < Shift(t, c) + Width(t) then Bit(v, 8 * k + j - Shift(t, c)) else Bit(p[k], j)
  {
    match t
    case Fat12 => if k == 0 { First12Bits(c, v, p[0], j); } else { Second12Bits(c, v, p[1], j); }
    case Fat16 => WordBytesBits(v, k, j);
    case Fat32 =>
      DwordBytesBits(v % 0x1000_0000 + LdDword(p, 0) / 0x1000_0000 * 0x1000_0000, k, j);
      Double32Bits(v, p, 8 * k + j);
      BitInByte(p, k, j);
  }

  /** put_fat writes the bits of the entry and no others. */
  lemma PutEntryBits(g: Geo, s: seq<Byte>, c: nat, v: nat)
    requires Fits(g, |s|) && c < g.nFatent
    ensures BitsPut(g, s, PutEntry(g, s, c, v), c, v)
  {
    PutEntryBytes(g, s, c, v);
    var r := PutEntry(g, s, c, v);
    forall i: nat {:trigger ImageBit(r, i)} | Fat1Byte(g, i / 8) && i / 8 < |s|
      ensures ImageBit(r, i) <==> if EntryBit(g, c, 0) <= i < EntryBit(g, c, Width(g.fsType)) then Bit(v, i - EntryBit(g, c, 0)) else ImageBit(s, i)
    {
      OneBitPut(g, s, r, c, v, i);
    }
  }

  lemma OneBitPut(g: Geo, s: seq<Byte>, r: seq<Byte>, c: nat, v: nat, i: nat)
    requires Fits(g, |s|) && c < g.nFatent && Fat1Byte(g, i / 8) && i / 8 < |s|
    requires Spliced(g, s, r, EntryAddr(g, c), Encode(g.fsType, c, v, EntryBytes(g, s, c)))
    ensures |r| == |s|
    ensures ImageBit(r, i) <==> if EntryBit(g, c, 0) <= i < EntryBit(g, c, Width(g.fsType)) then Bit(v, i - EntryBit(g, c, 0)) else ImageBit(s, i)
  {
    EntryInFat(g, c);
    FirstBit(g, c);
    var a, n, p := EntryAddr(g, c), EntrySpan(g.fsType), EntryBytes(g, s, c);
    if a <= i / 8 < a + n {
      var k, j := i / 8 - a, i % 8;
      assert i == 8 * a + (8 * k + j);
      assert r[i / 8] == Encode(g.fsType, c, v, p)[k] && s[i / 8] == p[k];
      EncodeBits(g.fsType, c, v, p, k, j);
    } else {
      assert r[i / 8] == s[i / 8];
      assert Shift(g.fsType, c) + Width(g.fsType) <= 8 * n;
    }
  }
}
