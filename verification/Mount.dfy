/** find_volume: locating a FAT volume on a drive and working out its layout. */
module Mount {
  import opened Machine
  import opened Bits
  import opened Geometry
  import opened DataArea

  /** The fields of a BIOS parameter block that find_volume looks at. */
  datatype Bpb = Bpb(
    bytesPerSec: nat, secPerClus: nat, rsvdSecCnt: nat, numFats: nat, rootEntCnt: nat,
    totSec16: nat, fatSz16: nat, totSec32: nat, fatSz32: nat, fsVer32: nat, rootClus32: nat, fsInfo32: nat)

  datatype Outcome = Rejected(error: FResult) | Accepted(g: Geo)

  function ReadBpb(s: seq<Byte>): (b: Bpb)
    requires |s| == 512
    ensures BpbFits(b)
  {
    Bpb(LdWord(s, 11), s[13], LdWord(s, 14), s[16], LdWord(s, 17),
        LdWord(s, 19), LdWord(s, 22), LdDword(s, 32), LdDword(s, 36), LdWord(s, 42), LdDword(s, 44), LdWord(s, 48))
  }

  /** The fields have the widths of the record. */
  predicate BpbFits(b: Bpb) {
    && b.bytesPerSec < 0x1_0000 && b.secPerClus < 0x100 && b.rsvdSecCnt < 0x1_0000 && b.numFats < 0x100
    && b.rootEntCnt < 0x1_0000 && b.totSec16 < 0x1_0000 && b.fatSz16 < 0x1_0000 && b.totSec32 < 0x1_0000_0000
    && b.fatSz32 < 0x1_0000_0000 && b.fsVer32 < 0x1_0000 && b.rootClus32 < 0x1_0000_0000 && b.fsInfo32 < 0x1_0000
  }

  function Wrap32(x: nat): Word32 { x % 0x1_0000_0000 }

  function FatSize(b: Bpb): nat { if b.fatSz16 == 0 then b.fatSz32 else b.fatSz16 }

  function TotalSectors(b: Bpb): nat { if b.totSec16 == 0 then b.totSec32 else b.totSec16 }

  /** Sectors of the reserved, FAT and root areas, without a bound on the sum. */
  function SystemSectors(b: Bpb): nat {
    b.rsvdSecCnt + (if b.numFats == 2 then 2 * FatSize(b) else FatSize(b)) + b.rootEntCnt / 16
  }

  function TypeOf(nclst: nat): FatType {
    if nclst <= MAX_FAT12 then Fat12 else if nclst <= MAX_FAT16 then Fat16 else Fat32
  }

  /** The layout find_volume computes, with the wrap-around of its DWORD sums. */
  function Layout(b: Bpb, bsect: Word32): Geo
    requires b.secPerClus > 0 && TotalSectors(b) >= Wrap32(SystemSectors(b))
  {
    var fasize := if b.numFats == 2 then Wrap32(2 * FatSize(b)) else FatSize(b);
    var sysect := Wrap32(SystemSectors(b));
    var nclst := (TotalSectors(b) - sysect) / b.secPerClus;
    var fatbase := Wrap32(bsect + b.rsvdSecCnt);
    Geo(TypeOf(nclst), b.numFats, b.secPerClus, b.rootEntCnt, nclst + 2, FatSize(b), bsect, fatbase,
        if TypeOf(nclst) == Fat32 then b.rootClus32 else Wrap32(fatbase + fasize),
        Wrap32(bsect + sysect))
  }

  /** find_volume's analysis of a boot record. */
  function Analyze(b: Bpb, bsect: Word32): Outcome {
    if b.bytesPerSec != 512 then Rejected(FrNoFilesystem)
    else if b.numFats != 1 && b.numFats != 2 then Rejected(FrNoFilesystem)
    else if b.secPerClus == 0 || BitAnd(b.secPerClus, b.secPerClus - 1) != 0 then Rejected(FrNoFilesystem)
    else if b.rootEntCnt % 16 != 0 then Rejected(FrNoFilesystem)
    else if b.rsvdSecCnt == 0 then Rejected(FrNoFilesystem)
    else if TotalSectors(b) < Wrap32(SystemSectors(b)) then Rejected(FrNoFilesystem)
    else
      var g := Layout(b, bsect);
      var nclst := g.nFatent - 2;
      if nclst == 0 || nclst > MAX_FAT32 then Rejected(FrNoFilesystem)
      else if g.fsType == Fat32 && (b.fsVer32 != 0 || b.rootEntCnt != 0) then Rejected(FrNoFilesystem)
      else if g.fsType != Fat32 && b.rootEntCnt == 0 then Rejected(FrNoFilesystem)
      else if g.fsize < (FatBytes(g.fsType, g.nFatent) + 511) / 512 then Rejected(FrNoFilesystem)
      else Accepted(g)
  }

  /** Sectors in front of the data area, by the bytes of a boot record; the sum may wrap. */
  function SystemArea(s: seq<Byte>): nat
    requires |s| == 512
  {
    Little(s, 14, 2) + FatsLength(s) + Little(s, 17, 2) / 16
  }

  /** Sectors of one FAT or of two. */
  function FatsLength(s: seq<Byte>): nat
    requires |s| == 512
  {
    if s[16] == 2 then 2 * FatLength(s) else FatLength(s)
  }

  function FatLength(s: seq<Byte>): nat
    requires |s| == 512
  {
    if Little(s, 22, 2) != 0 then Little(s, 22, 2) else Little(s, 36, 4)
  }

  function VolumeLength(s: seq<Byte>): nat
    requires |s| == 512
  {
    if Little(s, 19, 2) != 0 then Little(s, 19, 2) else Little(s, 32, 4)
  }

  /** n clusters, but not n + 1, fit behind the system area. */
  predicate ClusterCount(s: seq<Byte>, n: nat)
    requires |s| == 512
  {
    n * s[13] <= VolumeLength(s) - SystemArea(s) % 0x1_0000_0000 < (n + 1) * s[13]
  }

  /** The FAT has room for n clusters and the two reserved entries, whichever type the number makes it. */
  predicate FatHolds(s: seq<Byte>, n: nat)
    requires |s| == 512
  {
    if n <= 4085 then 3 * (n + 2) <= 2 * (512 * FatLength(s))
    else if n <= 65525 then 2 * (n + 2) <= 512 * FatLength(s)
    else 4 * (n + 2) <= 512 * FatLength(s)
  }

  /** The boot records of FAT volumes, by their bytes. */
  ghost predicate Acceptable(s: seq<Byte>)
    requires |s| == 512
  {
    && Little(s, 11, 2) == 512 && (s[16] == 1 || s[16] == 2) && Little(s, 14, 2) != 0
    && (s[13] == 1 || s[13] == 2 || s[13] == 4 || s[13] == 8 || s[13] == 16 || s[13] == 32 || s[13] == 64 || s[13] == 128)
    && Little(s, 17, 2) % 16 == 0
    && exists n: nat {:trigger ClusterCount(s, n)} :: ClusterCount(s, n) && TypeFits(s, n)
  }

  /** The layout, by the bytes of the boot record in sector b. */
  ghost predicate BootGives(s: seq<Byte>, b: nat, g: Geo)
    requires |s| == 512
  {
    SizesFrom(s, g) && BasesFrom(s, b, g)
  }

  ghost predicate SizesFrom(s: seq<Byte>, g: Geo)
    requires |s| == 512
  {
    && g.csize == s[13] && g.nFats == s[16] && g.nRootdir == Little(s, 17, 2) && g.fsize == FatLength(s)
    && g.nFatent >= 2 && ClusterCount(s, g.nFatent - 2)
    && g.fsType == (if g.nFatent - 2 <= 4085 then Fat12 else if g.nFatent - 2 <= 65525 then Fat16 else Fat32)
  }

  ghost predicate BasesFrom(s: seq<Byte>, b: nat, g: Geo)
    requires |s| == 512
  {
    && g.volbase == b && g.fatbase == (b + Little(s, 14, 2)) % 0x1_0000_0000
    && g.database == (b + SystemArea(s)) % 0x1_0000_0000
    && g.dirbase == if g.fsType == Fat32 then Little(s, 44, 4) else (b + Little(s, 14, 2) + FatsLength(s)) % 0x1_0000_0000
  }

  /** ReadBpb reads the fields where they are. */
  lemma FieldsAre(s: seq<Byte>)
    requires |s| == 512
    ensures var b := ReadBpb(s);
      && b.bytesPerSec == Little(s, 11, 2) && b.secPerClus == s[13] && b.rsvdSecCnt == Little(s, 14, 2) && b.numFats == s[16]
      && b.rootEntCnt == Little(s, 17, 2) && TotalSectors(b) == VolumeLength(s) && FatSize(b) == FatLength(s)
      && b.fsVer32 == Little(s, 42, 2) && b.rootClus32 == Little(s, 44, 4) && b.fsInfo32 == Little(s, 48, 2)
      && SystemSectors(b) == SystemArea(s)
  {
    var b := ReadBpb(s);
    assert b.bytesPerSec == Little(s, 11, 2) by { LoadsLittle(s, 11); }
    assert b.rsvdSecCnt == Little(s, 14, 2) by { LoadsLittle(s, 14); }
    assert b.rootEntCnt == Little(s, 17, 2) by { LoadsLittle(s, 17); }
    assert b.fsVer32 == Little(s, 42, 2) by { LoadsLittle(s, 42); }
    assert b.rootClus32 == Little(s, 44, 4) by { LoadsLittle(s, 44); }
    assert b.fsInfo32 == Little(s, 48, 2) by { LoadsLittle(s, 48); }
    LengthsAre(s);
  }

  lemma LengthsAre(s: seq<Byte>)
    requires |s| == 512
    ensures TotalSectors(ReadBpb(s)) == VolumeLength(s) && FatSize(ReadBpb(s)) == FatLength(s)
  {
    LoadsLittle(s, 19);
    LoadsLittle(s, 22);
    LoadsLittle(s, 32);
    LoadsLittle(s, 36);
  }

  lemma ModSum(a: nat, b: nat)
    ensures Wrap32(a + Wrap32(b)) == Wrap32(a + b)
  {
    var q := b / 0x1_0000_0000;
    assert a + b == a + Wrap32(b) + q * 0x1_0000_0000;
    ModShift(a + Wrap32(b), q);
  }

  lemma ModShift(x: nat, q: nat)
    ensures (x + q * 0x1_0000_0000) % 0x1_0000_0000 == x % 0x1_0000_0000
  {
    var y := x + q * 0x1_0000_0000;
    DivModUnique(y, 0x1_0000_0000, x / 0x1_0000_0000 + q, x % 0x1_0000_0000);
  }

  /** The quotient is the number of clusters, and no other number is. */
  lemma CountIsQuotient(s: seq<Byte>, n: nat)
    requires |s| == 512 && s[13] > 0 && VolumeLength(s) >= Wrap32(SystemArea(s))
    ensures ClusterCount(s, n) <==> n == (VolumeLength(s) - Wrap32(SystemArea(s))) / s[13]
  {
    var room, c := VolumeLength(s) - Wrap32(SystemArea(s)), s[13] as nat;
    QuotientIs(room, c, n);
  }

  lemma QuotientIs(room: nat, c: nat, n: nat)
    requires c > 0
    ensures n * c <= room < (n + 1) * c <==> n == room / c
  {
    var q, r := room / c, room % c;
    assert room == q * c + r && (q + 1) * c == q * c + c;
    if n * c <= room < (n + 1) * c {
      assert (n + 1) * c == n * c + c;
      DivModUnique(room, c, n, room - n * c);
    }
  }

  /** The cluster sizes that pass the mask test. */
  lemma UnitsAre(c: Byte)
    ensures c != 0 && BitAnd(c, c - 1) == 0 <==>
      c == 1 || c == 2 || c == 4 || c == 8 || c == 16 || c == 32 || c == 64 || c == 128
  {
    if c != 0 { MaskTest(c); }
  }

  lemma MaskTest(c: Byte)
    requires c != 0
    ensures BitAnd(c, c - 1) == 0 <==> c == 1 || c == 2 || c == 4 || c == 8 || c == 16 || c == 32 || c == 64 || c == 128
  {
    if c > 1 {
      if c % 2 == 1 {
        assert BitAnd(c / 2, c / 2) == c / 2 by { BitAndSelf(c / 2); }
      } else {
        MaskTest(c / 2);
        assert (c - 1) / 2 == c / 2 - 1;
      }
    }
  }

  lemma FatBytesAre(n: nat, size: nat)
    ensures (FatBytes(TypeOf(n), n + 2) + 511) / 512 <= size <==>
      if n <= 4085 then 3 * (n + 2) <= 2 * (512 * size) else if n <= 65525 then 2 * (n + 2) <= 512 * size else 4 * (n + 2) <= 512 * size
  {
    var x := FatBytes(TypeOf(n), n + 2);
    assert (x + 511) / 512 <= size <==> x <= 512 * size;
  }

  /** The number of clusters of a boot record whose lengths are possible. */
  predicate Countable(s: seq<Byte>)
    requires |s| == 512
  {
    s[13] > 0 && (s[16] == 1 || s[16] == 2) && VolumeLength(s) >= Wrap32(SystemArea(s))
  }

  function Quotient(s: seq<Byte>): nat
    requires |s| == 512 && Countable(s)
  {
    Over(VolumeLength(s) - Wrap32(SystemArea(s)), s[13])
  }

  function Over(n: nat, c: nat): nat
    requires c > 0
  {
    n / c
  }

  /** What depends on the number of clusters. */
  predicate TypeFits(s: seq<Byte>, n: nat)
    requires |s| == 512
  {
    1 <= n <= 0x0FFF_FFF5 && FatHolds(s, n) && if n <= 65525 then Little(s, 17, 2) != 0 else Little(s, 17, 2) == 0 && Little(s, 42, 2) == 0
  }

  predicate PlainTests(s: seq<Byte>)
    requires |s| == 512
  {
    Little(s, 11, 2) == 512 && Little(s, 14, 2) != 0 && Little(s, 17, 2) % 16 == 0 && BitAnd(s[13], if s[13] == 0 then 0 else s[13] - 1) == 0
  }

  /** The tests of find_volume, one by one. */
  lemma AnalyzeTests(s: seq<Byte>, b: Word32)
    requires |s| == 512
    ensures Analyze(ReadBpb(s), b).Accepted? <==> Countable(s) && PlainTests(s) && TypeFits(s, Quotient(s))
    ensures !Analyze(ReadBpb(s), b).Accepted? ==> Analyze(ReadBpb(s), b) == Rejected(FrNoFilesystem)
  {
    FieldsAre(s);
    if Countable(s) { FatBytesAre(Quotient(s), FatLength(s)); }
  }

  lemma TestsAreAcceptable(s: seq<Byte>)
    requires |s| == 512
    ensures Acceptable(s) <==> Countable(s) && PlainTests(s) && TypeFits(s, Quotient(s))
  {
    UnitsAre(s[13]);
    if Countable(s) {
      CountIsQuotient(s, Quotient(s));
      if Acceptable(s) {
        var n: nat :| ClusterCount(s, n) && TypeFits(s, n);
        CountIsQuotient(s, n);
      }
    } else {
      forall n: nat ensures ClusterCount(s, n) ==> s[13] > 0 && VolumeLength(s) >= Wrap32(SystemArea(s)) { RoomLeft(s, n); }
    }
  }

  lemma RoomLeft(s: seq<Byte>, n: nat)
    requires |s| == 512
    ensures ClusterCount(s, n) ==> s[13] > 0 && VolumeLength(s) >= Wrap32(SystemArea(s))
  {
  }

  lemma LayoutMeans(s: seq<Byte>, b: Word32, p: Bpb)
    requires |s| == 512 && Countable(s) && p == ReadBpb(s) && p.secPerClus > 0 && TotalSectors(p) >= Wrap32(SystemSectors(p))
    ensures BootGives(s, b, Layout(p, b))
  {
    FieldsAre(s);
    assert SizesFrom(s, Layout(p, b)) by { CountIsQuotient(s, Quotient(s)); }
    assert BasesFrom(s, b, Layout(p, b)) by {
      ModSum(b, SystemArea(s));
      BasesMean(b, Little(s, 14, 2), s[16], FatLength(s));
    }
  }

  /** The end of the FATs, summed up in steps that wrap. */
  lemma BasesMean(b: Word32, rsv: nat, fats: nat, size: nat)
    requires fats == 1 || fats == 2
    ensures Wrap32(Wrap32(b + rsv) + if fats == 2 then Wrap32(2 * size) else size) == Wrap32(b + rsv + if fats == 2 then 2 * size else size)
  {
    var area := if fats == 2 then 2 * size else size;
    ModSum(area, b + rsv);
    ModSum(Wrap32(b + rsv), area);
  }

  /** find_volume accepts exactly these boot records, and takes the layout from these bytes. */
  lemma AcceptedMeans(s: seq<Byte>, b: Word32)
    requires |s| == 512
    ensures Analyze(ReadBpb(s), b).Accepted? <==> Acceptable(s)
    ensures Analyze(ReadBpb(s), b).Accepted? ==> BootGives(s, b, Analyze(ReadBpb(s), b).g)
    ensures !Acceptable(s) ==> Analyze(ReadBpb(s), b) == Rejected(FrNoFilesystem)
  {
    AnalyzeTests(s, b);
    TestsAreAcceptable(s);
    if Acceptable(s) {
      AcceptedFacts(ReadBpb(s), b);
      LayoutMeans(s, b, ReadBpb(s));
    }
  }

  /** Every FAT access and every cluster of the layout lies in its own region of a disk of `size` bytes. */
  ghost predicate Sound(g: Geo, size: nat) { Fits(g, size) && DataOk(g, size) && g.volbase < g.fatbase }

  /** The entries of a FAT that is large enough in bytes all lie inside it. */
  lemma EntriesFit(g: Geo, c: nat)
    requires FatBytes(g.fsType, g.nFatent) <= 512 * g.fsize && c < g.nFatent
    ensures EntryOffset(g.fsType, c) + EntrySpan(g.fsType) <= 512 * g.fsize
  {
    match g.fsType
    case Fat12 =>
      var n := g.nFatent;
      assert c + c / 2 + 2 <= n * 3 / 2 + n % 2;
    case Fat16 =>
    case Fat32 =>
  }

  lemma ClustersFit(csize: nat, room: nat)
    requires csize > 0
    ensures Times(csize, room / csize) <= room
  {
    TimesIsProduct(csize, room / csize);
  }

  lemma NoWrap(x: nat)
    requires x < 0x1_0000_0000
    ensures Wrap32(x) == x
  {
  }

  /** A layout whose sums do not wrap: the regions follow one another and end inside the volume. */
  lemma LayoutRegions(b: Bpb, bsect: Word32)
    requires b.secPerClus > 0 && 1 <= b.numFats <= 2 && b.rsvdSecCnt > 0
    requires SystemSectors(b) < 0x1_0000_0000 && SystemSectors(b) < TotalSectors(b) && bsect + TotalSectors(b) <= 0x1_0000_0000
    ensures Wrap32(SystemSectors(b)) == SystemSectors(b)
    ensures var g := Layout(b, bsect);
      && g.fatbase == bsect + b.rsvdSecCnt && g.database == bsect + SystemSectors(b) && FatEnd(g) + b.rootEntCnt / 16 == g.database
      && g.database + Times(g.csize, g.nFatent - 2) <= bsect + TotalSectors(b)
      && (g.fsType != Fat32 ==> g.dirbase == FatEnd(g))
  {
    NoWrap(SystemSectors(b));
    NoWrap(bsect + b.rsvdSecCnt);
    NoWrap(bsect + SystemSectors(b));
    NoWrap(FatSize(b));
    if b.numFats == 2 { NoWrap(2 * FatSize(b)); }
    var fasize := if b.numFats == 2 then 2 * FatSize(b) else FatSize(b);
    NoWrap(bsect + b.rsvdSecCnt + fasize);
    ClustersFit(b.secPerClus, TotalSectors(b) - SystemSectors(b));
  }

  /** No power of two lies strictly between one and its double. */
  lemma {:induction false} NotBetween(p: nat, c: nat)
    requires PowerOfTwo(p) && p < c < 2 * p
    ensures !PowerOfTwo(c)
    decreases c
  {
    if p > 1 && c % 2 == 0 { NotBetween(p / 2, c / 2); }
  }

  lemma PowerBound(c: nat)
    requires 0 < c < 256 && PowerOfTwo(c)
    ensures c <= 128
  {
    PowerTimes8(1);
    PowerTimes8(8);
    Doubled(64);
    if c > 128 { NotBetween(128, c); }
  }

  lemma RoundedUp(x: nat, m: nat)
    requires (x + 511) / 512 <= m
    ensures x <= 512 * m
  {
  }

  /** The tests an accepted boot record has passed. */
  lemma AcceptedFacts(b: Bpb, bsect: Word32)
    requires Analyze(b, bsect).Accepted?
    ensures b.secPerClus > 0 && 1 <= b.numFats <= 2 && b.rsvdSecCnt > 0 && Wrap32(SystemSectors(b)) <= TotalSectors(b)
    ensures Analyze(b, bsect).g == Layout(b, bsect) && BitAnd(b.secPerClus, b.secPerClus - 1) == 0
    ensures var g := Layout(b, bsect);
      0 < g.nFatent - 2 <= MAX_FAT32 && (FatBytes(g.fsType, g.nFatent) + 511) / 512 <= g.fsize
  {
  }

  lemma AcceptedLimits(b: Bpb, bsect: Word32)
    requires BpbFits(b) && Analyze(b, bsect).Accepted?
    ensures b.secPerClus > 0 && 1 <= b.numFats <= 2 && b.rsvdSecCnt > 0 && Wrap32(SystemSectors(b)) < TotalSectors(b)
    ensures Analyze(b, bsect).g == Layout(b, bsect) && PowerOfTwo(b.secPerClus) && b.secPerClus <= 128
    ensures var g := Layout(b, bsect);
      2 < g.nFatent <= MaxEntries(g.fsType) && FatBytes(g.fsType, g.nFatent) <= 512 * g.fsize
  {
    AcceptedFacts(b, bsect);
    PowerTest(b.secPerClus);
    var g := Layout(b, bsect);
    RoundedUp(FatBytes(g.fsType, g.nFatent), g.fsize);
    if Wrap32(SystemSectors(b)) == TotalSectors(b) { NoClusters(b.secPerClus); }
  }

  lemma NoClusters(c: nat)
    requires c > 0
    ensures 0 / c == 0
  {
  }

  lemma PowerTest(c: nat)
    requires 0 < c < 256 && BitAnd(c, c - 1) == 0
    ensures PowerOfTwo(c) && c <= 128
  {
    PowerOfTwoTest(c);
    PowerBound(c);
  }

  /**
   * For every boot record find_volume accepts on a drive that holds the whole volume, the layout is
   * sound exactly when the sum of the system areas does not wrap.
   */
  lemma AcceptedIsSound(b: Bpb, bsect: Word32, size: nat)
    requires BpbFits(b) && Analyze(b, bsect).Accepted?
    requires bsect + TotalSectors(b) <= 0x1_0000_0000 && 512 * (bsect + TotalSectors(b)) <= size
    ensures Sound(Analyze(b, bsect).g, size) <==> SystemSectors(b) < 0x1_0000_0000
  {
    AcceptedLimits(b, bsect);
    if SystemSectors(b) < 0x1_0000_0000 {
      NoWrap(SystemSectors(b));
      SoundLayout(b, bsect, size);
    } else {
      WrappedLayout(b, bsect);
    }
  }

  /** ... and then the static root directory of a FAT12 or FAT16 volume lies between the FATs and the data area. */
  lemma AcceptedRoot(b: Bpb, bsect: Word32)
    requires BpbFits(b) && Analyze(b, bsect).Accepted? && Analyze(b, bsect).g.fsType != Fat32
    requires bsect + TotalSectors(b) <= 0x1_0000_0000 && SystemSectors(b) < 0x1_0000_0000
    ensures RootOk(Analyze(b, bsect).g)
  {
    AcceptedLimits(b, bsect);
    NoWrap(SystemSectors(b));
    LayoutRegions(b, bsect);
  }

  lemma SoundLayout(b: Bpb, bsect: Word32, size: nat)
    requires b.secPerClus > 0 && 1 <= b.numFats <= 2 && b.rsvdSecCnt > 0
    requires SystemSectors(b) < 0x1_0000_0000 && SystemSectors(b) < TotalSectors(b) && bsect + TotalSectors(b) <= 0x1_0000_0000
    requires 512 * (bsect + TotalSectors(b)) <= size && PowerOfTwo(b.secPerClus) && b.secPerClus <= 128
    requires Wrap32(SystemSectors(b)) == SystemSectors(b)
    requires var g := Layout(b, bsect);
      2 < g.nFatent <= MaxEntries(g.fsType) && FatBytes(g.fsType, g.nFatent) <= 512 * g.fsize
    ensures Sound(Layout(b, bsect), size)
  {
    LayoutRegions(b, bsect);
    RegionsAreSound(Layout(b, bsect), size);
  }

  lemma RegionsAreSound(g: Geo, size: nat)
    requires 1 <= g.nFats <= 2 && 2 < g.nFatent <= MaxEntries(g.fsType) && g.volbase < g.fatbase
    requires FatBytes(g.fsType, g.nFatent) <= 512 * g.fsize
    requires PowerOfTwo(g.csize) && 1 <= g.csize <= 128 && FatEnd(g) <= g.database
    requires g.database + Times(g.csize, g.nFatent - 2) <= 0x1_0000_0000
    requires 512 * (g.database + Times(g.csize, g.nFatent - 2)) <= size
    ensures Sound(g, size)
  {
    forall c: nat | c < g.nFatent ensures EntryOffset(g.fsType, c) + EntrySpan(g.fsType) <= 512 * g.fsize {
      EntriesFit(g, c);
    }
    EntriesFit(g, 0);
  }

  /** A wrapped sum puts the data area in front of the end of the FATs, or the FATs in front of the volume. */
  lemma WrappedLayout(b: Bpb, bsect: Word32)
    requires BpbFits(b) && b.secPerClus > 0 && 1 <= b.numFats <= 2 && SystemSectors(b) >= 0x1_0000_0000
    requires Wrap32(SystemSectors(b)) < TotalSectors(b) && bsect + TotalSectors(b) <= 0x1_0000_0000
    ensures var g := Layout(b, bsect); g.database < FatEnd(g) || g.fatbase <= g.volbase
  {
    var sys := SystemSectors(b);
    NoWrap(bsect + Wrap32(sys));
    assert Wrap32(sys) <= sys - 0x1_0000_0000;
    if bsect + b.rsvdSecCnt < 0x1_0000_0000 {
      NoWrap(bsect + b.rsvdSecCnt);
    } else {
      assert Wrap32(bsect + b.rsvdSecCnt) == bsect + b.rsvdSecCnt - 0x1_0000_0000;
    }
  }

  /** A boot record with wrapping sums that find_volume accepts although its FATs overrun the data area. */
  lemma WrapIsAccepted()
    ensures var b := Bpb(512, 1, 1, 2, 16, 3000, 0, 0, 0x8000_0000, 0, 0, 0);
      BpbFits(b) && Analyze(b, 0).Accepted? && SystemSectors(b) >= 0x1_0000_0000 && !Sound(Analyze(b, 0).g, 512 * 3000)
  {
    var b := Bpb(512, 1, 1, 2, 16, 3000, 0, 0, 0x8000_0000, 0, 0, 0);
    assert Wrap32(SystemSectors(b)) == 2;
    assert BitAnd(1, 0) == 0;
    AcceptedIsSound(b, 0, 512 * 3000);
  }

  function SectorOf(image: seq<Byte>, k: nat): (s: seq<Byte>)
    requires 512 * k + 512 <= |image|
    ensures |s| == 512
  {
    image[512 * k..512 * k + 512]
  }

  /** check_fs: 0 for a FAT boot record, 2 for another boot record, 3 for none. */
  function CheckFs(s: seq<Byte>): nat
    requires |s| == 512
  {
    if LdWord(s, 510) != 0xAA55 then 3
    else if s[0] != 0xE9 && s[0] != 0xEB && s[0] != 0xE8 then 2
    else if s[54..57] == [0x46, 0x41, 0x54] then 0
    else if s[82..87] == [0x46, 0x41, 0x54, 0x33, 0x32] then 0
    else 2
  }

  /** A FAT boot record has the mark at its end, one of three jump codes and a type name at one of two places. */
  lemma CheckFsMeans(s: seq<Byte>)
    requires |s| == 512
    ensures CheckFs(s) == 3 <==> !(s[510] == 0x55 && s[511] == 0xAA)
    ensures CheckFs(s) == 0 <==>
      s[510] == 0x55 && s[511] == 0xAA && (s[0] == 0xEB || s[0] == 0xE9 || s[0] == 0xE8) && (Text(s, 54, "FAT") || Text(s, 82, "FAT32"))
    ensures CheckFs(s) == 0 || CheckFs(s) == 2 || CheckFs(s) == 3
  {
    var x, y := s[54..57], s[82..87];
    var a, b := "FAT", "FAT32";
    assert a[0] as int == 0x46 && a[1] as int == 0x41 && a[2] as int == 0x54;
    assert b[0] as int == 0x46 && b[1] as int == 0x41 && b[2] as int == 0x54 && b[3] as int == 0x33 && b[4] as int == 0x32;
    assert Text(s, 54, "FAT") <==> s[54] == 0x46 && s[55] == 0x41 && s[56] == 0x54;
    assert Text(s, 82, "FAT32") <==> s[82] == 0x46 && s[83] == 0x41 && s[84] == 0x54 && s[85] == 0x33 && s[86] == 0x32;
    assert x == [s[54], s[55], s[56]] && y == [s[82], s[83], s[84], s[85], s[86]];
  }

  /** Start of the i-th partition; 0 if there is none. */
  function PartitionStart(mbr: seq<Byte>, i: nat): (b: Word32)
    requires |mbr| == 512 && i < 4
    ensures b == if mbr[450 + 16 * i] == 0 then 0 else Little(mbr, 454 + 16 * i, 4)
  {
    LoadsLittle(mbr, 454 + 16 * i);
    if mbr[446 + 16 * i + 4] != 0 then LdDword(mbr, 446 + 16 * i + 8) else 0
  }

  /** Every partition of the table starts on the disk. */
  ghost predicate TableOnDisk(image: seq<Byte>) {
    |image| >= 512 && forall i {:trigger PartitionStart(SectorOf(image, 0), i)} :: 0 <= i < 4 ==>
      512 * PartitionStart(SectorOf(image, 0), i) + 512 <= |image|
  }

  /** Partition i holds a FAT volume. */
  ghost predicate HoldsVolume(image: seq<Byte>, i: nat)
    requires TableOnDisk(image) && i < 4
  {
    var b := PartitionStart(SectorOf(image, 0), i);
    b != 0 && CheckFs(SectorOf(image, b)) == 0
  }

  /** `bsect` is where find_volume must look: the whole drive, or else the first partition with a FAT volume. */
  ghost predicate IsVolumeStart(image: seq<Byte>, bsect: nat)
    requires TableOnDisk(image)
  {
    var fmt := CheckFs(SectorOf(image, 0));
    || (fmt == 0 && bsect == 0)
    || (fmt == 2 && exists i :: 0 <= i < 4 && HoldsVolume(image, i) && bsect == PartitionStart(SectorOf(image, 0), i)
                                && forall j :: 0 <= j < i ==> !HoldsVolume(image, j))
  }

  /** No FAT volume on the drive. */
  ghost predicate NoVolume(image: seq<Byte>)
    requires TableOnDisk(image)
  {
    var fmt := CheckFs(SectorOf(image, 0));
    fmt == 3 || (fmt == 2 && forall j :: 0 <= j < 4 ==> !HoldsVolume(image, j))
  }

  /** find_volume's search for the boot record. */
  method LocateVolume(disk: array<Byte>) returns (fmt: nat, bsect: Word32)
    requires TableOnDisk(disk[..])
    ensures fmt == 0 || fmt == 2 || fmt == 3
    ensures fmt == 0 ==> IsVolumeStart(disk[..], bsect) && 512 * bsect + 512 <= disk.Length && CheckFs(SectorOf(disk[..], bsect)) == 0
    ensures fmt != 0 ==> NoVolume(disk[..])
  {
    var image := disk[..];
    var mbr := SectorOf(image, 0);
    bsect := 0;
    fmt := CheckFs(mbr);
    if fmt == 2 {
      var i := 0;
      while i < 4
        invariant 0 <= i <= 4 && (fmt == 2 || fmt == 3)
        invariant forall j :: 0 <= j < i ==> !HoldsVolume(image, j)
      {
        bsect := PartitionStart(mbr, i);
        fmt := if bsect != 0 then CheckFs(SectorOf(image, bsect)) else 3;
        if fmt == 0 {
          assert HoldsVolume(image, i);
          return;
        }
        i := i + 1;
      }
    }
  }

  /** find_volume on a drive. */
  method FindVolume(disk: array<Byte>) returns (o: Outcome)
    requires TableOnDisk(disk[..])
    ensures NoVolume(disk[..]) ==> o == Rejected(FrNoFilesystem)
    ensures !NoVolume(disk[..]) ==> exists b: Word32 :: IsVolumeStart(disk[..], b) && 512 * b + 512 <= disk.Length
                                                         && o == Analyze(ReadBpb(SectorOf(disk[..], b)), b)
    ensures !NoVolume(disk[..]) ==> exists b: Word32 :: IsVolumeStart(disk[..], b) && 512 * b + 512 <= disk.Length && Outcomes(SectorOf(disk[..], b), b, o)
  {
    var fmt, bsect := LocateVolume(disk);
    if fmt >= 2 { return Rejected(FrNoFilesystem); }
    o := Analyze(ReadBpb(SectorOf(disk[..], bsect)), bsect);
    AcceptedMeans(SectorOf(disk[..], bsect), bsect);
    assert Outcomes(SectorOf(disk[..], bsect), bsect, o);
  }

  /** The outcome, by the bytes of the boot record in sector b. */
  ghost predicate Outcomes(s: seq<Byte>, b: nat, o: Outcome)
    requires |s| == 512
  {
    if Acceptable(s) then o.Accepted? && BootGives(s, b, o.g) else o == Rejected(FrNoFilesystem)
  }

  datatype FsInfo = FsInfo(freeClst: Word32, lastClst: Word32, flag: Byte)

  /** The allocation hints find_volume takes from the FSINFO sector of a FAT32 volume. */
  function LoadFsInfo(t: FatType, b: Bpb, s: seq<Byte>): FsInfo
    requires |s| == 512
  {
    if t != Fat32 || b.fsInfo32 != 1 then FsInfo(NONE, NONE, 0x80)
    else if LdWord(s, 510) == 0xAA55 && LdDword(s, 0) == 0x4161_5252 && LdDword(s, 484) == 0x6141_7272
    then FsInfo(LdDword(s, 488), LdDword(s, 492), 0)
    else FsInfo(NONE, NONE, 0)
  }

  /** The hints are taken over if and only if the record names sector 1 and that sector carries its three marks. */
  lemma InfoTaken(t: FatType, boot: seq<Byte>, s: seq<Byte>)
    requires |boot| == 512 && |s| == 512
    ensures var info := LoadFsInfo(t, ReadBpb(boot), s);
      if t != Fat32 || Little(boot, 48, 2) != 1 then info == FsInfo(0xFFFF_FFFF, 0xFFFF_FFFF, 0x80)
      else if Text(s, 0, "RRaA") && Text(s, 484, "rrAa") && s[510] == 0x55 && s[511] == 0xAA then info == FsInfo(Little(s, 488, 4), Little(s, 492, 4), 0)
      else info == FsInfo(0xFFFF_FFFF, 0xFFFF_FFFF, 0)
  {
    FieldsAre(boot);
    LoadsLittle(s, 488);
    LoadsLittle(s, 492);
    MarkIs(s, 0, "RRaA");
    MarkIs(s, 484, "rrAa");
  }

  /** Four characters as a double word. */
  lemma MarkIs(s: seq<Byte>, i: nat, t: string)
    requires i + 4 <= |s| && |t| == 4 && forall k {:trigger t[k]} :: 0 <= k < 4 ==> t[k] as int < 0x100
    ensures Text(s, i, t) <==> LdDword(s, i) == t[0] as int + 0x100 * (t[1] as int) + 0x1_0000 * (t[2] as int) + 0x100_0000 * (t[3] as int)
  {
    assert Text(s, i, t) <==> s[i] as int == t[0] as int && s[i + 1] as int == t[1] as int && s[i + 2] as int == t[2] as int && s[i + 3] as int == t[3] as int;
  }

  /** The hints a mount of the image takes over. */
  ghost function Hints(g: Geo, s: seq<Byte>): FsInfo
    requires 512 * g.volbase + 1024 <= |s|
  {
    LoadFsInfo(g.fsType, ReadBpb(SectorOf(s, g.volbase)), SectorOf(s, g.volbase + 1))
  }

  /** The volume has an FSINFO sector of its own. */
  ghost predicate InfoUsed(g: Geo, s: seq<Byte>) {
    && g.fsType == Fat32 && g.volbase + 1 < g.fatbase && 512 * g.volbase + 1024 <= |s|
    && ReadBpb(SectorOf(s, g.volbase)).fsInfo32 == 1
  }

  /** The FSINFO sector holds the hints, unless the flag says that it is to be updated. */
  ghost predicate HintsHeld(g: Geo, s: seq<Byte>, free: Word32, last: Word32, flag: Byte) {
    InfoUsed(g, s) ==> flag == 1 || (flag == 0 && Hints(g, s) == FsInfo(free, last, 0))
  }

  /** A mount of the image takes over just these hints, unless it takes over none. */
  ghost predicate HintsCurrent(g: Geo, s: seq<Byte>, free: Word32, last: Word32) {
    InfoUsed(g, s) ==> Hints(g, s) == FsInfo(free, last, 0)
  }

  /** What a mount takes over is held. */
  lemma LoadedIsHeld(g: Geo, s: seq<Byte>)
    requires 512 * g.volbase + 1024 <= |s|
    ensures var h := Hints(g, s); HintsHeld(g, s, h.freeClst, h.lastClst, h.flag)
  {
  }

  /** A change behind the reserved area leaves the FSINFO sector alone. */
  lemma HintsStay(g: Geo, s: seq<Byte>, r: seq<Byte>, free: Word32, last: Word32, flag: Byte)
    requires |r| == |s| && forall a {:trigger r[a]} :: 0 <= a < |s| && a < 512 * g.fatbase ==> r[a] == s[a]
    ensures HintsHeld(g, s, free, last, flag) ==> HintsHeld(g, r, free, last, flag)
  {
    if InfoUsed(g, r) {
      assert SectorOf(r, g.volbase) == SectorOf(s, g.volbase);
      assert SectorOf(r, g.volbase + 1) == SectorOf(s, g.volbase + 1);
    }
  }
}
