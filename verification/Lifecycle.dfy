/** From an unformatted drive to a mounted volume. */
module Lifecycle {
  import opened Machine
  import opened Geometry
  import opened Chains
  import opened DataArea
  import opened Mount
  import opened Mkfs
  import opened Volume
  import opened FileView
  import opened DirTable
  import opened Directory
  import opened Durable

  /** f_mkfs, then find_volume: the volume mounts with the planned layout and every cluster accounted for. */
  method FormatAndMount(disk: array<Byte>, work: array<Byte>, opt: Options, bytes: nat, volId: Word32) returns (res: FResult, fs: Fatfs?)
    requires disk != work && disk.Length % 512 == 0 && disk.Length < 512 * NONE
    modifies disk, work
    ensures res == FrOk ==> fs != null && fresh(fs) && fresh(fs.win) && fs.disk == disk && fs.Valid() && DataOk(fs.g, |fs.store|)
    ensures res == FrOk ==> WellFormed(fs.fat, NewChains(fs.g.fsType)) && fs.g.nFatent >= 3 && fs.fat == NewTable(fs.g.fsType, fs.g.nFatent)
    ensures res == FrOk ==> FreeCount(fs.fat) == fs.g.nFatent - 2 - |NewChains(fs.g.fsType)|
    ensures res == FrOk ==> fs.freeClst == NONE || fs.freeClst == FreeCount(fs.fat)
    ensures res == FrOk ==> RootReady(fs.g, fs.store) && fs.CountOk() && InfoSafe(fs.g) && Mountable(fs.g, fs.store)
    ensures bytes == 0 && work.Length >= 512 && (opt.fat || opt.fat32) ==>
      var b := if opt.sfd then 0 else 63;
      res == FrOk <==> b + 128 <= disk.Length / 512 && AutoFits(disk.Length / 512 - b, FirstType(opt), opt)
  {
    fs := null;
    var p, bVol, szVol;
    res, p, bVol, szVol := FMkfs(disk, work, opt, bytes, volId);
    if res != FrOk { return; }
    var o := MountFormatted(disk, p, bVol, szVol, volId);
    var info := HintsOf(disk, o.g.fsType, p, bVol, szVol, volId);
    NewTableWellFormed(p.fmt, p.nClst + 2);
    fs := new Fatfs(disk, o.g, info.lastClst, info.freeClst, info.flag);
    TableIsUnique(fs.g, fs.store, fs.fat, NewTable(p.fmt, p.nClst + 2));
  }

  /** find_volume on a formatted drive. */
  method MountFormatted(disk: array<Byte>, ghost p: Plan, bVol: Word32, szVol: Word32, ghost volId: Word32) returns (o: Outcome)
    requires PlanOk(p, szVol) && 512 * (bVol + szVol) == disk.Length && bVol + szVol <= 0x1_0000_0000
    requires Formatted(disk[..], p, bVol, szVol, volId) && Reachable(disk[..], bVol)
    ensures o == Accepted(PlannedGeo(p, bVol)) && Sound(PlannedGeo(p, bVol), disk.Length)
    ensures IsTable(PlannedGeo(p, bVol), disk[..], NewTable(p.fmt, p.nClst + 2)) && RootReady(PlannedGeo(p, bVol), disk[..])
    ensures InfoSafe(PlannedGeo(p, bVol)) && Mountable(PlannedGeo(p, bVol), disk[..])
  {
    FormattedIsMountable(disk[..], p, bVol, szVol, volId);
    RootFacts(disk[..], p, bVol, szVol, volId);
    FormattedIsFound(disk[..], p, bVol, szVol, volId);
    MountFacts(disk[..], p, bVol, szVol, volId);
    o := FindVolume(disk);
  }

  /** A new volume can be found and its layout worked out. */
  lemma FormattedIsMountable(image: seq<Byte>, p: Plan, bVol: Word32, szVol: Word32, volId: Word32)
    requires PlanOk(p, szVol) && 512 * (bVol + szVol) == |image| && bVol + szVol <= 0x1_0000_0000
    requires Formatted(image, p, bVol, szVol, volId) && Reachable(image, bVol)
    ensures InfoSafe(PlannedGeo(p, bVol)) && Mountable(PlannedGeo(p, bVol), image)
  {
    FormatThenMount(image, p, bVol, szVol, volId);
    FormattedIsFound(image, p, bVol, szVol, volId);
    BootIsRecognized(p, bVol, szVol, volId);
    if bVol != 0 {
      var sys: Byte, n: nat :| sys != 0 && SectorOf(image, 0) == MbrSector(sys, bVol, n);
      MbrLeadsToVolume(sys, bVol, n);
      assert FirstVolume(PlannedGeo(p, bVol), image, 0);
    }
  }

  lemma MountFacts(image: seq<Byte>, p: Plan, bVol: Word32, szVol: Word32, volId: Word32)
    requires PlanOk(p, szVol) && 512 * (bVol + szVol) == |image| && bVol + szVol <= 0x1_0000_0000
    requires Formatted(image, p, bVol, szVol, volId) && Reachable(image, bVol)
    ensures Analyze(ReadBpb(SectorOf(image, bVol)), bVol) == Accepted(PlannedGeo(p, bVol)) && Sound(PlannedGeo(p, bVol), |image|)
    ensures IsTable(PlannedGeo(p, bVol), image, NewTable(p.fmt, p.nClst + 2))
  {
    FormatThenMount(image, p, bVol, szVol, volId);
  }

  /** The allocation hints find_volume takes from a formatted drive. */
  method HintsOf(disk: array<Byte>, t: FatType, ghost p: Plan, bVol: Word32, szVol: Word32, ghost volId: Word32) returns (info: FsInfo)
    requires PlanOk(p, szVol) && 512 * (bVol + szVol) == disk.Length && bVol + szVol <= 0x1_0000_0000
    requires Formatted(disk[..], p, bVol, szVol, volId) && t == p.fmt
    ensures info.freeClst == if t == Fat32 then FreeCount(NewTable(p.fmt, p.nClst + 2)) else NONE
    ensures HintsHeld(PlannedGeo(p, bVol), disk[..], info.freeClst, info.lastClst, info.flag)
  {
    info := FsInfo(NONE, NONE, 0x80);
    if t == Fat32 {
      FormattedHints(disk[..], p, bVol, szVol, volId);
      info := LoadFsInfo(Fat32, ReadBpb(SectorOf(disk[..], bVol)), SectorOf(disk[..], bVol + 1));
      HeldIfFresh(PlannedGeo(p, bVol), disk[..], info);
    }
  }

  lemma FormattedHints(image: seq<Byte>, p: Plan, bVol: Word32, szVol: Word32, volId: Word32)
    requires PlanOk(p, szVol) && 512 * (bVol + 8) <= |image| && p.fmt == Fat32
    requires SectorOf(image, bVol) == BootSector(p, bVol, szVol, volId) && InfoRecords(image, p, bVol)
    ensures var info := LoadFsInfo(Fat32, ReadBpb(SectorOf(image, bVol)), SectorOf(image, bVol + 1));
      info.freeClst == FreeCount(NewTable(Fat32, p.nClst + 2)) && info.lastClst == 2 && info.flag == 0
  {
    var b := ReadBpb(BootSector(p, bVol, szVol, volId));
    assert b.fsInfo32 == 1 by { BpbReadBack(p, bVol, szVol, volId); }
    FormatCountsFree(p, szVol, b);
  }

  lemma HeldIfFresh(g: Geo, s: seq<Byte>, info: FsInfo)
    requires 512 * g.volbase + 1024 <= |s| && Hints(g, s) == info && info.flag == 0
    ensures HintsHeld(g, s, info.freeClst, info.lastClst, info.flag)
  {
  }

  /** The root directory's first sector and length on a new volume. */
  function RootFirst(g: Geo): nat { if g.fsType == Fat32 then g.database else g.dirbase }
  function RootLength(g: Geo): nat { if g.fsType == Fat32 then g.csize else g.nRootdir / 16 }

  /** The chain of the root directory on a new volume. */
  ghost function RootChain(g: Geo): Chain { if g.fsType == Fat32 then [2] else [] }

  /** The root directory is where it belongs and blank. */
  ghost predicate RootReady(g: Geo, s: seq<Byte>) {
    && (if g.fsType == Fat32 then g.dirbase == 2 else RootOk(g))
    && forall a {:trigger s[a]} :: 512 * RootFirst(g) <= a < 512 * (RootFirst(g) + RootLength(g)) && a < |s| ==> s[a] == 0
  }

  lemma RootFacts(image: seq<Byte>, p: Plan, bVol: Word32, szVol: Word32, volId: Word32)
    requires PlanOk(p, szVol) && 512 * (bVol + szVol) == |image| && bVol + szVol <= 0x1_0000_0000
    requires Formatted(image, p, bVol, szVol, volId)
    ensures RootReady(PlannedGeo(p, bVol), image)
  {
  }

  /** The sectors of the root directory of a new volume. */
  lemma RootSectorList(g: Geo, secs: seq<nat>)
    requires g.nFatent > 2 && Clusters(g, [2])
    requires secs == if g.fsType == Fat32 then Sectors(g, [2]) else Run(g.dirbase, g.nRootdir / 16)
    ensures secs == Run(RootFirst(g), RootLength(g))
  {
    if g.fsType == Fat32 { SectorsSnoc(g, [], 2); }
  }

  /** A blank table is in order and holds nothing. */
  lemma BlankTable(es: seq<Slot>)
    requires SlotsOk(es) && forall k {:trigger es[k]} :: 0 <= k < |es| ==> es[k][0] == 0
    ensures InOrder(es) && Meaning(es) == imap[]
  {
    forall k, n: Name | 0 <= k < |es| && NameOk(n) ensures !Matches(es[k], n) {
      assert es[k][..11][0] == 0;
    }
  }

  /** From a drive to an empty root directory that is ready for use. */
  method FormatAndOpenRoot(disk: array<Byte>, work: array<Byte>, opt: Options, bytes: nat, volId: Word32, fn: Name) returns (res: FResult, d: Dir?)
    requires disk != work && disk.Length % 512 == 0 && disk.Length < 512 * NONE && |fn| == 11
    modifies disk, work
    ensures res == FrOk ==> d != null && fresh(d) && fresh(d.fs) && fresh(d.fs.win) && d.fs.disk == disk && d.Valid() && d.exact && InOrder(d.table) && Meaning(d.table) == imap[]
    ensures res == FrOk ==> d.fn == fn && InfoSafe(d.fs.g) && Mountable(d.fs.g, d.fs.store) && d.fs.fat == NewTable(d.fs.g.fsType, d.fs.g.nFatent)
    ensures res == FrOk ==> d.fs.g.nFatent >= 3 && 2 <= |d.fs.fat| && (d.fs.freeClst == NONE || d.fs.freeClst == FreeCount(d.fs.fat))
    ensures res == FrOk ==> d.sclust == 0 && d.chain == RootChain(d.fs.g) && d.others == {} && !FullTo(d.table, |d.table|)
    ensures bytes == 0 && work.Length >= 512 && (opt.fat || opt.fat32) ==>
      var b := if opt.sfd then 0 else 63;
      res == FrOk <==> b + 128 <= disk.Length / 512 && AutoFits(disk.Length / 512 - b, FirstType(opt), opt)
  {
    d := null;
    var fs: Fatfs?;
    res, fs := FormatAndMount(disk, work, opt, bytes, volId);
    if res != FrOk { return; }
    d := OpenRoot(fs, fn);
  }

  /** The root directory of a new volume. */
  method OpenRoot(fs: Fatfs, fn: Name) returns (d: Dir)
    requires fs.Valid() && DataOk(fs.g, |fs.store|) && WellFormed(fs.fat, NewChains(fs.g.fsType)) && RootReady(fs.g, fs.store) && |fn| == 11
    ensures fresh(d) && d.fs == fs && d.Valid() && d.exact == fs.CountOk() && InOrder(d.table) && Meaning(d.table) == imap[] && d.fn == fn
    ensures d.sclust == 0 && d.chain == RootChain(fs.g) && d.others == {} && !FullTo(d.table, |d.table|)
  {
    ghost var x := RootChain(fs.g);
    ghost var none: set<Chain> := {};
    assert none + {x} == {x};
    d := new Dir(fs, 0, fn, x, none);
    RootIsBlank(d);
    BlankTable(d.table);
    assert |d.table| > 0 && IsFree(d.table[0]);
  }

  lemma RootIsBlank(d: Dir)
    requires d.Valid() && d.sclust == 0 && RootReady(d.fs.g, d.fs.store) && d.chain == if d.fs.g.fsType == Fat32 then [2] else []
    ensures forall k {:trigger d.table[k]} :: 0 <= k < |d.table| ==> d.table[k][0] == 0
  {
    assert OpenTable(0);
    var g := d.fs.g;
    RootSectorList(g, d.secs);
    BlankArea(d.fs.store, d.secs, RootFirst(g), RootLength(g));
  }

  /** The entries of a blank area. */
  lemma BlankArea(s: seq<Byte>, secs: seq<nat>, first: nat, n: nat)
    requires secs == Run(first, n) && SecsOk(secs, |s|)
    requires forall a {:trigger s[a]} :: 512 * first <= a < 512 * (first + n) && a < |s| ==> s[a] == 0
    ensures var es := TableOf(secs, s); forall k {:trigger es[k]} :: 0 <= k < |es| ==> es[k][0] == 0
  {
    var es := TableOf(secs, s);
    forall k {:trigger es[k]} | 0 <= k < |es| ensures es[k][0] == 0 {
      var a := SlotAddr(secs, k);
      assert secs[k / 16] == first + k / 16;
      assert es[k] == s[a..a + 32];
    }
  }
}
