/** sync_fs: flush the window and record the allocation hints of a FAT32 volume. */
module Sync {
  import opened Machine
  import opened Geometry
  import opened DiskIo
  import opened Chains
  import opened FileView
  import opened Volume
  import opened Mount
  import opened Mkfs

  /** The FSINFO sector is to be updated. */
  ghost predicate InfoDue(fs: Fatfs)
    reads fs`fsiFlag
  {
    fs.g.fsType == Fat32 && fs.fsiFlag == 1
  }

  /**
   * sync_fs. Afterwards the medium is the logical disk, with the current hints in the FSINFO sector. The sector
   * behind the boot record is written unconditionally: on a volume with a single reserved sector it is the first
   * sector of the FAT, and then cluster 2 is recorded as free.
   */
  method SyncFs(fs: Fatfs)
    requires fs.Valid() && fs.g.volbase < fs.g.fatbase
    modifies fs`wflag, fs`winsect, fs`store, fs`fsiFlag, fs.win, fs.disk
    ensures !fs.wflag && fs.disk[..] == fs.store && |fs.store| == |old(fs.store)| && 512 * fs.g.volbase + 1024 <= |fs.store|
    ensures !old(InfoDue(fs)) ==> fs.Valid() && fs.store == old(fs.store) && fs.winsect == old(fs.winsect)
    ensures old(InfoDue(fs)) ==> fs.winsect == fs.g.volbase + 1
    ensures fs.g.volbase + 1 < fs.g.fatbase ==> HintsCurrent(fs.g, fs.store, fs.freeClst, fs.lastClst)
    ensures old(InfoDue(fs)) ==>
      fs.fsiFlag == 0 && fs.store == Patch(old(fs.store), 512 * fs.g.volbase + 512, InfoSector(fs.freeClst, fs.lastClst))
    ensures old(InfoDue(fs)) && fs.g.volbase + 1 < fs.g.fatbase ==> fs.Valid()
    ensures old(InfoDue(fs)) && fs.g.volbase + 1 == fs.g.fatbase ==> Fits(fs.g, |fs.store|) && Entry(fs.g, fs.store, 2) == 0
  {
    fs.SyncWindow();
    fs.CleanMedium();
    assert OpenInfo(0);
    if fs.g.fsType == Fat32 && fs.fsiFlag == 1 {
      WriteInfo(fs);
    }
  }

  /** A synchronised FSINFO sector holds the hints. */
  lemma InfoHeld(g: Geo, s: seq<Byte>, free: Word32, last: Word32)
    requires 512 * g.volbase + 1024 <= |s| && SectorOf(s, g.volbase + 1) == InfoSector(free, last)
    ensures HintsHeld(g, s, free, last, 0)
  {
    if InfoUsed(g, s) { InfoReadBack(ReadBpb(SectorOf(s, g.volbase)), free, last); }
  }

  /** What the FSINFO record does to the logical disk s of a volume with the table fat. */
  lemma InfoPatched(g: Geo, s: seq<Byte>, fat: seq<nat>, free: Word32, last: Word32)
    requires Fits(g, |s|) && IsTable(g, s, fat) && Mirrored(g, s) && g.fsType == Fat32 && g.volbase < g.fatbase
    ensures 512 * g.volbase + 1024 <= |s|
    ensures var r := Patch(s, 512 * g.volbase + 512, InfoSector(free, last));
      if g.volbase + 1 < g.fatbase then IsTable(g, r, fat) && Mirrored(g, r) && HintsHeld(g, r, free, last, 0) else Entry(g, r, 2) == 0
  {
    var r := Patch(s, 512 * g.volbase + 512, InfoSector(free, last));
    if g.volbase + 1 < g.fatbase {
      TableFrame(g, s, r, fat);
      assert SectorOf(r, g.volbase + 1) == InfoSector(free, last);
      InfoHeld(g, r, free, last);
    } else {
      InfoOverFat(g, s, free, last);
    }
  }

  method WriteInfo(fs: Fatfs)
    requires fs.Valid() && fs.g.volbase < fs.g.fatbase && fs.g.fsType == Fat32 && !fs.wflag && fs.disk[..] == fs.store
    modifies fs`winsect, fs`store, fs`fsiFlag, fs.win, fs.disk
    ensures fs.fsiFlag == 0 && fs.disk[..] == fs.store && |fs.store| == |old(fs.store)| && 512 * fs.g.volbase + 1024 <= |fs.store|
    ensures fs.store == Patch(old(fs.store), 512 * fs.g.volbase + 512, InfoSector(fs.freeClst, fs.lastClst))
    ensures fs.winsect == fs.g.volbase + 1
    ensures fs.g.volbase + 1 < fs.g.fatbase ==> fs.Valid()
    ensures fs.g.volbase + 1 == fs.g.fatbase ==> Fits(fs.g, |fs.store|) && Entry(fs.g, fs.store, 2) == 0
  {
    ghost var s, info := fs.store, InfoSector(fs.freeClst, fs.lastClst);
    ghost var r := Patch(s, 512 * fs.g.volbase + 512, info);
    assert Mirrored(fs.g, s) by { assert Unseal(0); }
    InfoPatched(fs.g, s, fs.fat, fs.freeClst, fs.lastClst);
    StoreInfo(fs, info, r);
  }

  /** The same, given the record and what it makes of the logical disk. */
  method StoreInfo(fs: Fatfs, ghost info: seq<Byte>, ghost r: seq<Byte>)
    requires fs.disk != fs.win && fs.win.Length == 512 && !fs.wflag && |fs.store| == fs.disk.Length <= 512 * NONE && 512 * fs.g.volbase + 1024 <= fs.disk.Length
    requires |info| == 512 && info == InfoSector(fs.freeClst, fs.lastClst) && r == Patch(fs.disk[..], 512 * (fs.g.volbase + 1), info)
    modifies fs`winsect, fs`store, fs`fsiFlag, fs.win, fs.disk
    ensures fs.fsiFlag == 0 && fs.disk[..] == r && fs.store == r && fs.winsect == fs.g.volbase + 1
    ensures Fits(fs.g, |r|) && IsTable(fs.g, r, fs.fat) && Mirrored(fs.g, r) && HintsHeld(fs.g, r, fs.freeClst, fs.lastClst, 0) ==> fs.Valid()
  {
    ghost var s := fs.disk[..];
    PutInfo(fs, fs.g.volbase + 1, info);
    PatchedSector(s, fs.g.volbase + 1, info);
    fs.fsiFlag := 0;
    TakeOver(fs, r);
  }

  lemma PatchedSector(s: seq<Byte>, k: nat, info: seq<Byte>)
    requires 512 * k + 512 <= |s| && |info| == 512
    ensures SectorOf(Patch(s, 512 * k, info), k) == info
  {
  }

  /** The logical disk is what is on the medium, with a clean window on one of its sectors. */
  ghost method TakeOver(fs: Fatfs, r: seq<Byte>)
    requires fs.disk != fs.win && fs.win.Length == 512 && !fs.wflag && |r| == |fs.store| == fs.disk.Length <= 512 * NONE && fs.disk[..] == r
    requires 512 * fs.winsect + 512 <= |r| && fs.win[..] == SectorOf(r, fs.winsect)
    modifies fs`store
    ensures fs.store == r
    ensures Fits(fs.g, |r|) && IsTable(fs.g, r, fs.fat) && Mirrored(fs.g, r) && HintsHeld(fs.g, r, fs.freeClst, fs.lastClst, fs.fsiFlag) ==> fs.Valid()
  {
    fs.store := r;
    if Fits(fs.g, |r|) && Mirrored(fs.g, r) { assert fs.WindowFacts(); }
  }

  /** Fill the window with the record and write it to sector k. */
  method PutInfo(fs: Fatfs, k: Word32, ghost info: seq<Byte>)
    requires fs.disk != fs.win && fs.win.Length == 512 && 512 * k + 512 <= fs.disk.Length && info == InfoSector(fs.freeClst, fs.lastClst)
    modifies fs`winsect, fs.win, fs.disk
    ensures fs.winsect == k && fs.win[..] == info && fs.disk[..] == Patch(old(fs.disk[..]), 512 * k, info)
  {
    fs.FillWindow(0, InfoSector(fs.freeClst, fs.lastClst));
    fs.winsect := k;
    assert fs.win[..] == info;
    DiskWrite(fs.disk, fs.win, 0, k, 1);
    assert fs.disk[..] == Patch(old(fs.disk[..]), 512 * k, info);
  }

  /** An FSINFO record over the first sector of a FAT32 table marks cluster 2 as free. */
  lemma InfoOverFat(g: Geo, s: seq<Byte>, free: Word32, next: Word32)
    requires Fits(g, |s|) && g.fsType == Fat32
    ensures Entry(g, Patch(s, 512 * g.fatbase, InfoSector(free, next)), 2) == 0
  {
    EntryInFat(g, 2);
    var r := Patch(s, 512 * g.fatbase, InfoSector(free, next));
    assert EntryAddr(g, 2) == 512 * g.fatbase + 8;
    assert EntryBytes(g, r, 2) == [0, 0, 0, 0];
  }

  /** The next mount of a synchronised volume takes over the hints. */
  lemma HintsSurvive(fs: Fatfs, s: seq<Byte>, b: Bpb)
    requires b.fsInfo32 == 1 && 512 * fs.g.volbase + 1024 <= |s| && fs.g.fsType == Fat32
    ensures var r := Patch(s, 512 * fs.g.volbase + 512, InfoSector(fs.freeClst, fs.lastClst));
      LoadFsInfo(Fat32, b, SectorOf(r, fs.g.volbase + 1)) == FsInfo(fs.freeClst, fs.lastClst, 0)
  {
    var r := Patch(s, 512 * fs.g.volbase + 512, InfoSector(fs.freeClst, fs.lastClst));
    assert SectorOf(r, fs.g.volbase + 1) == InfoSector(fs.freeClst, fs.lastClst);
    InfoReadBack(b, fs.freeClst, fs.lastClst);
  }

  /** Such a volume is accepted: FAT32 with one reserved sector and an FSINFO sector, which is then the start of the FAT. */
  lemma OneReservedSector()
    ensures var b := Bpb(512, 1, 1, 1, 0, 0, 0, 70000, 600, 0, 2, 1);
      && BpbFits(b) && Analyze(b, 0).Accepted? && b.fsInfo32 == 1
      && Analyze(b, 0).g.fsType == Fat32 && Analyze(b, 0).g.volbase + 1 == Analyze(b, 0).g.fatbase && Sound(Analyze(b, 0).g, 512 * 70000)
  {
    var b := Bpb(512, 1, 1, 1, 0, 0, 0, 70000, 600, 0, 2, 1);
    assert BitAnd(1, 0) == 0;
    AcceptedIsSound(b, 0, 512 * 70000);
  }

  /** A FAT16 table of zero bytes. */
  lemma BlankIsTable(g: Geo, s: seq<Byte>)
    requires Fits(g, |s|) && g.fsType == Fat16 && forall a {:trigger s[a]} :: Fat1Byte(g, a) && 0 <= a < |s| ==> s[a] == 0
    ensures IsTable(g, s, seq(g.nFatent, _ => 0))
  {
    forall c {:trigger Entry(g, s, c)} | 0 <= c < g.nFatent ensures Entry(g, s, c) == 0 {
      EntryInFat(g, c);
      assert EntryBytes(g, s, c) == [0, 0];
    }
  }

  /** The boot record of a volume of 5000 one-sector clusters. */
  function SmallBpb(): Bpb { Bpb(512, 1, 1, 1, 16, 5022, 20, 0, 0, 0, 0, 0) }

  lemma SmallLayout()
    ensures TotalSectors(SmallBpb()) == 5022 && Wrap32(SystemSectors(SmallBpb())) == 22
    ensures Layout(SmallBpb(), 0) == Geo(Fat16, 1, 1, 16, 5002, 20, 0, 1, 21, 22)
  {
  }

  lemma SmallFat16()
    ensures BpbFits(SmallBpb()) && Analyze(SmallBpb(), 0) == Accepted(Geo(Fat16, 1, 1, 16, 5002, 20, 0, 1, 21, 22))
  {
    SmallLayout();
    BitsOfOne();
  }

  lemma BitsOfOne()
    ensures BitAnd(1, 0) == 0
  {
  }

  /** A FAT16 drive of 5000 clusters that find_volume accepts; with a blank FAT its free clusters are counted as 5002. */
  lemma BlankFat16(s: seq<Byte>)
    requires |s| == 512 * 5022 && ReadBpb(SectorOf(s, 0)) == SmallBpb() && forall a {:trigger s[a]} :: 512 <= a < 512 * 21 ==> s[a] == 0
    ensures BpbFits(SmallBpb()) && Analyze(SmallBpb(), 0).Accepted?
    ensures var g := Analyze(SmallBpb(), 0).g;
      && g.fsType == Fat16 && g.nFatent == 5002 && Sound(g, |s|) && IsTable(g, s, seq(5002, _ => 0))
      && FreeFrom(seq(5002, _ => 0), 0) == 5002 && FreeCount(seq(5002, _ => 0)) == 5000
  {
    SmallFat16();
    AcceptedIsSound(SmallBpb(), 0, |s|);
    BlankIsTable(Analyze(SmallBpb(), 0).g, s);
    ReservedZeros(5002);
  }
}
