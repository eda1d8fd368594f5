/** f_sync: what a file holds survives on the medium, so that mounting and opening again yields the same bytes. */
module Durable {
  import opened Machine
  import opened Bits
  import opened Geometry
  import opened Chains
  import opened FileView
  import opened DataArea
  import opened Volume
  import opened File
  import opened FileRuns
  import opened DirTable
  import opened Mount
  import opened Mkfs
  import opened Sync

  /** The directory entry after f_sync: archive attribute, first cluster, size and time. */
  function Updated(t: FatType, e: Slot, sclust: nat, size: nat, tm: Word32): (r: Slot)
    requires |e| == 32
    ensures |r| == 32
  {
    seq(32, i requires 0 <= i < 32 =>
      if i == 11 then (if e[11] / 32 % 2 == 1 then e[11] else (e[11] + 32) % 0x100)
      else if i == 18 || i == 19 then 0
      else if t == Fat32 && 20 <= i < 22 then WordBytes(sclust / 0x1_0000)[i - 20]
      else if 22 <= i < 26 then DwordBytes(tm)[i - 22]
      else if 26 <= i < 28 then WordBytes(sclust)[i - 26]
      else if 28 <= i then DwordBytes(size)[i - 28]
      else e[i])
  }

  /** ld_clust */
  function LdClust(t: FatType, e: Slot): nat
    requires |e| == 32
  {
    LdWord(e, 26) + if t == Fat32 then 0x1_0000 * LdWord(e, 20) else 0
  }

  /** The first cluster of an entry, by its bytes. */
  lemma LdClustMeans(t: FatType, e: Slot)
    requires |e| == 32
    ensures LdClust(t, e) == Little(e, 26, 2) + if t == Fat32 then 65536 * Little(e, 20, 2) else 0
  {
    LoadsLittle(e, 26);
    LoadsLittle(e, 20);
  }

  /**
   * What f_sync makes of an entry, by its bytes: the archive bit is set, the last access cleared, and the time of the
   * change, the first cluster and the size are stored. The name, the other attributes and the creation time stay, and
   * without FAT32 so do the bytes that hold the upper half of the cluster number there.
   */
  ghost predicate SyncedEntry(t: FatType, e: Slot, r: Slot, sclust: nat, size: nat, tm: Word32)
    requires |e| == 32 && |r| == 32
  {
    && r[..11] == e[..11] && r[12..18] == e[12..18] && r[18] == 0 && r[19] == 0
    && (forall j: nat {:trigger Bit(r[11], j)} :: Bit(r[11], j) <==> j == 5 || Bit(e[11], j))
    && Little(r, 22, 4) == tm && Little(r, 26, 2) == sclust % 65536 && Little(r, 28, 4) == size
    && (if t == Fat32 then Little(r, 20, 2) == sclust / 65536 else r[20] == e[20] && r[21] == e[21])
  }

  lemma UpdatedMeans(t: FatType, e: Slot, sclust: Word32, size: Word32, tm: Word32)
    requires |e| == 32
    ensures SyncedEntry(t, e, Updated(t, e, sclust, size, tm), sclust, size, tm)
  {
    var r := Updated(t, e, sclust, size, tm);
    assert r[..11] == e[..11] && r[12..18] == e[12..18];
    assert r[18] == 0 && r[19] == 0;
    forall j: nat ensures Bit(r[11], j) <==> j == 5 || Bit(e[11], j) { ArchiveBit(e[11], j); }
    UpdatedCluster(t, e, sclust, size, tm);
    DwordLittle(r, 22, tm);
    DwordLittle(r, 28, size);
  }

  lemma UpdatedCluster(t: FatType, e: Slot, sclust: Word32, size: Word32, tm: Word32)
    requires |e| == 32
    ensures var r := Updated(t, e, sclust, size, tm);
      Little(r, 26, 2) == sclust % 65536 && if t == Fat32 then Little(r, 20, 2) == sclust / 65536 else r[20] == e[20] && r[21] == e[21]
  {
    var r := Updated(t, e, sclust, size, tm);
    assert r[26] == WordBytes(sclust)[0] && r[27] == WordBytes(sclust)[1];
    WordLittle(r, 26, sclust);
    if t == Fat32 {
      assert r[20] == WordBytes(sclust / 65536)[0] && r[21] == WordBytes(sclust / 65536)[1];
      WordLittle(r, 20, sclust / 65536);
    } else {
      assert r[20] == e[20] && r[21] == e[21];
    }
  }

  /** The attribute AM_ARC. */
  lemma ArchiveBit(a: Byte, j: nat)
    ensures Bit(if a / 32 % 2 == 1 then a else (a + 32) % 0x100, j) <==> j == 5 || Bit(a, j)
  {
    if a / 32 % 2 == 0 {
      var lo, h := a % 32, a / 32;
      assert a == lo + 32 * h && a + 32 == lo + 32 * (h + 1) && a + 32 < 0x100;
      assert Pow2(5) == 32;
      JoinedBits(lo, h, 5, j);
      JoinedBits(lo, h + 1, 5, j);
      if j > 5 { assert (h + 1) / 2 == h / 2; }
    } else {
      assert Pow2(5) == 32;
      JoinedBits(a % 32, a / 32, 5, 5);
      assert Bit(a, 5);
    }
  }

  /** Opening reads back the first cluster and the size, and finds the entry under the same name. */
  lemma EntryReadBack(t: FatType, e: Slot, sclust: Word32, size: Word32, tm: Word32)
    requires |e| == 32 && (t != Fat32 ==> sclust < 0x1_0000)
    ensures var r := Updated(t, e, sclust, size, tm);
      LdClust(t, r) == sclust && LdDword(r, 28) == size && forall n: Name :: |n| == 11 ==> (Matches(r, n) <==> Matches(e, n))
  {
    ClusterReadBack(t, e, sclust, size, tm);
    SizeReadBack(t, e, sclust, size, tm);
    NameKept(t, e, sclust, size, tm);
  }

  lemma ClusterReadBack(t: FatType, e: Slot, sclust: Word32, size: Word32, tm: Word32)
    requires |e| == 32 && (t != Fat32 ==> sclust < 0x1_0000)
    ensures LdClust(t, Updated(t, e, sclust, size, tm)) == sclust
  {
    var r := Updated(t, e, sclust, size, tm);
    WordField(r, 26, sclust);
    if t == Fat32 { WordField(r, 20, sclust / 0x1_0000); }
  }

  lemma SizeReadBack(t: FatType, e: Slot, sclust: Word32, size: Word32, tm: Word32)
    requires |e| == 32
    ensures LdDword(Updated(t, e, sclust, size, tm), 28) == size
  {
    var r := Updated(t, e, sclust, size, tm);
    LdStDword(size);
    LdDwordSlice(r, 28);
    assert r[28..32] == DwordBytes(size);
  }

  lemma NameKept(t: FatType, e: Slot, sclust: Word32, size: Word32, tm: Word32)
    requires |e| == 32
    ensures forall n: Name :: |n| == 11 ==> (Matches(Updated(t, e, sclust, size, tm), n) <==> Matches(e, n))
  {
    var r := Updated(t, e, sclust, size, tm);
    assert r[..11] == e[..11];
    AttrKept(e[11]);
  }

  lemma WordField(r: Slot, i: nat, w: nat)
    requires i + 2 <= |r| && r[i] == WordBytes(w)[0] && r[i + 1] == WordBytes(w)[1]
    ensures LdWord(r, i) == w % 0x1_0000
  {
    LdStWord(w);
  }

  /** Setting the archive bit leaves the volume bit alone. */
  lemma AttrKept(a: Byte)
    ensures var b := if a / 32 % 2 == 1 then a else (a + 32) % 0x100; b / 8 % 2 == a / 8 % 2
  {
  }

  /** The entry is in a sector outside the FATs that is none of the file's, nor of another open file it knows of. */
  ghost predicate EntryApart(f: Fil, dirSect: nat, o: nat)
    reads f, f.fs
  {
    && FatEnd(f.fs.g) <= dirSect < NONE && 512 * dirSect + 512 <= |f.fs.store| && o + 32 <= 512
    && NotAmong(f.secs, dirSect) && NotAmong(f.watched, dirSect) && dirSect != f.sect && dirSect < VolumeEnd(f.fs.g)
  }

  /** The entry is in the static root directory or in a cluster of another chain: where it is does not depend on the file. */
  ghost predicate EntryPlace(g: Geo, others: set<Chain>, size: nat, dirSect: nat, o: nat) {
    && FatEnd(g) <= dirSect < NONE && 512 * dirSect + 512 <= size && o + 32 <= 512
    && (dirSect < g.database || !SectApart(g, others, dirSect))
  }

  lemma PlaceIsApart(f: Fil, dirSect: nat, o: nat)
    requires f.Valid() && EntryPlace(f.fs.g, f.others, |f.fs.store|, dirSect, o) && NotAmong(f.watched, dirSect)
    ensures EntryApart(f, dirSect, o)
  {
    var secs := f.secs;
    forall k {:trigger secs[k]} | 0 <= k < |secs| ensures secs[k] != dirSect {
      f.OwnSectorApart(k);
      SectorInData(f, k);
    }
    assert OpenCore(0);
    assert OpenData(0) && OpenChain(0);
    if dirSect >= f.fs.g.database { InOthers(f.fs.g, f.fs.fat, f.Everything(), f.others, dirSect); }
  }

  /** A sector of another chain lies inside the volume. */
  lemma InOthers(g: Geo, fat: Fat, chains: set<Chain>, others: set<Chain>, s: nat)
    requires WellFormed(fat, chains) && others <= chains && |fat| == g.nFatent && !SectApart(g, others, s)
    ensures s < VolumeEnd(g)
  {
    assert OpenSect(0);
    var y, i :| y in others && 0 <= i < |y| && InCluster(g, y[i], s);
    assert IsChain(fat, y);
    InsideVolume(g, y[i], s);
  }

  lemma SectorInData(f: Fil, k: nat)
    requires f.Valid() && k < |f.secs|
    ensures f.fs.g.database <= f.secs[k] < VolumeEnd(f.fs.g)
  {
    assert OpenCore(0);
    assert OpenData(0);
    var p := SectorsFrom(f.fs.g, f.chain, k);
    InsideVolume(f.fs.g, f.chain[p], f.secs[k]);
  }

  /** sync_fs does not write into the FAT. */
  predicate InfoSafe(g: Geo) { g.volbase < g.fatbase && (g.fsType == Fat32 ==> g.volbase + 1 < g.fatbase) }

  ghost predicate OpenBoot(k: int) { true }

  /** The sector is the volume's boot record, or lies in front of the volume or behind it. */
  predicate Outside(g: Geo, k: int) { k <= g.volbase || VolumeEnd(g) <= k }

  /** find_volume finds the volume: on the whole drive, or in the first partition that holds one, none of those listed before it starting inside the volume. */
  ghost predicate Located(g: Geo, s: seq<Byte>) {
    TableOnDisk(s) && match CheckFs(SectorOf(s, 0))
    case 0 => g.volbase == 0
    case 2 => exists i :: 0 <= i < 4 && FirstVolume(g, s, i)
    case _ => false
  }

  ghost predicate FirstVolume(g: Geo, s: seq<Byte>, i: nat)
    requires TableOnDisk(s) && i < 4
  {
    && HoldsVolume(s, i) && g.volbase == PartitionStart(SectorOf(s, 0), i)
    && forall j :: 0 <= j < i ==> Outside(g, PartitionStart(SectorOf(s, 0), j)) && !HoldsVolume(s, j)
  }

  /** A mount of the image finds the volume and works out the layout g. */
  ghost predicate Mountable(g: Geo, s: seq<Byte>) {
    && g.volbase < 0x1_0000_0000 && 512 * g.volbase + 512 <= |s|
    && forall k {:trigger OpenBoot(k)} :: OpenBoot(k) ==>
         Located(g, s) && Analyze(ReadBpb(SectorOf(s, g.volbase)), g.volbase) == Mount.Accepted(g)
  }

  /** The boot record and everything outside the volume have not changed. */
  ghost predicate OutsideKept(g: Geo, s: seq<Byte>, r: seq<Byte>) {
    |r| == |s| && forall a {:trigger r[a]} :: 0 <= a < |s| && Outside(g, a / 512) ==> r[a] == s[a]
  }

  lemma OutsideSector(g: Geo, s: seq<Byte>, r: seq<Byte>, k: nat)
    requires OutsideKept(g, s, r) && Outside(g, k) && 512 * k + 512 <= |s|
    ensures SectorOf(r, k) == SectorOf(s, k)
  {
    var x, y := SectorOf(r, k), SectorOf(s, k);
    forall i | 0 <= i < 512 ensures x[i] == y[i] { assert x[i] == r[512 * k + i]; }
  }

  lemma MountableKept(g: Geo, s: seq<Byte>, r: seq<Byte>)
    requires Mountable(g, s) && OutsideKept(g, s, r)
    ensures Mountable(g, r)
  {
    assert OpenBoot(0);
    OutsideSector(g, s, r, 0);
    OutsideSector(g, s, r, g.volbase);
    if CheckFs(SectorOf(s, 0)) == 2 {
      var i :| 0 <= i < 4 && FirstVolume(g, s, i);
      forall j | 0 <= j <= i ensures HoldsVolume(r, j) == HoldsVolume(s, j) {
        assert Outside(g, PartitionStart(SectorOf(s, 0), j));
        OutsideSector(g, s, r, PartitionStart(SectorOf(s, 0), j));
      }
      assert FirstVolume(g, r, i);
    }
  }

  /** A located volume is the one find_volume finds. */
  lemma LocatedIsFound(g: Geo, s: seq<Byte>, b: nat)
    requires Located(g, s)
    ensures !NoVolume(s) && (IsVolumeStart(s, b) ==> b == g.volbase)
  {
    if CheckFs(SectorOf(s, 0)) == 2 {
      var i :| 0 <= i < 4 && FirstVolume(g, s, i);
      if IsVolumeStart(s, b) {
        var j :| 0 <= j < 4 && HoldsVolume(s, j) && b == PartitionStart(SectorOf(s, 0), j) && forall k :: 0 <= k < j ==> !HoldsVolume(s, k);
        assert i == j;
      }
    }
  }

  ghost function EntryOf(store: seq<Byte>, dirSect: nat, o: nat): Slot
    requires 512 * dirSect + 512 <= |store| && o + 32 <= 512
  {
    store[512 * dirSect + o..512 * dirSect + o + 32]
  }

  /** f_sync writes the directory entry of the file. */
  method UpdateEntry(fs: Fatfs, dirSect: Word32, o: nat, sclust: nat, size: nat, tm: Word32)
    requires fs.Valid() && FatEnd(fs.g) <= dirSect < NONE && 512 * dirSect + 512 <= |fs.store| && o + 32 <= 512
    modifies fs`wflag, fs`winsect, fs`store, fs.win, fs.disk
    ensures fs.Valid() && fs.winsect == dirSect && |fs.store| == |old(fs.store)|
    ensures fs.store == Patch(old(fs.store), 512 * dirSect + o, Updated(fs.g.fsType, EntryOf(old(fs.store), dirSect, o), sclust, size, tm))
  {
    fs.MoveWindow(dirSect);
    assert fs.WindowFacts() by { assert Unseal(0); }
    var e := fs.win[o..o + 32];
    assert e == EntryOf(fs.store, dirSect, o);
    fs.PokeBytes(o, Updated(fs.g.fsType, e, sclust, size, tm));
  }

  ghost predicate OpenRecord(k: int) { true }

  /** From s to r the entry became e; apart from it, the given sectors and the FSINFO sector nothing changed. */
  ghost predicate Recorded(g: Geo, secs: seq<nat>, s: seq<Byte>, r: seq<Byte>, dirSect: nat, o: nat, e: Slot) {
    && |r| == |s| && |e| == 32 && 512 * dirSect + 512 <= |s| && o + 32 <= 512
    && forall k {:trigger OpenRecord(k)} :: OpenRecord(k) ==> EntryOf(r, dirSect, o) == e && KeptAround(g, secs, s, r, dirSect, o)
  }

  ghost predicate KeptAround(g: Geo, secs: seq<nat>, s: seq<Byte>, r: seq<Byte>, dirSect: nat, o: nat)
    requires |r| == |s|
  {
    forall a {:trigger r[a]} :: 0 <= a < |s| && a / 512 != g.volbase + 1 && a / 512 !in secs && !(512 * dirSect + o <= a < 512 * dirSect + o + 32) ==> r[a] == s[a]
  }

  lemma PatchedIsThere(s: seq<Byte>, a: nat, e: seq<Byte>)
    requires a + |e| <= |s|
    ensures Patch(s, a, e)[a..a + |e|] == e
  {
    var r := Patch(s, a, e);
    var x := r[a..a + |e|];
    forall i | 0 <= i < |e| ensures x[i] == e[i] { assert x[i] == r[a + i]; }
  }

  /** Writing the entry. */
  lemma EntryRecorded(g: Geo, s: seq<Byte>, dirSect: nat, o: nat, e: Slot)
    requires 512 * dirSect + 512 <= |s| && o + 32 <= 512 && |e| == 32
    ensures Recorded(g, [], s, Patch(s, 512 * dirSect + o, e), dirSect, o, e)
  {
    PatchedIsThere(s, 512 * dirSect + o, e);
  }

  /** Writing the FSINFO sector in front of the FATs. */
  lemma InfoRecorded(g: Geo, s: seq<Byte>, s1: seq<Byte>, dirSect: nat, o: nat, e: Slot, info: seq<Byte>)
    requires Recorded(g, [], s, s1, dirSect, o, e) && FatEnd(g) <= dirSect && |info| == 512 && g.volbase + 1 < g.fatbase && 512 * g.volbase + 1024 <= |s|
    ensures var r := Patch(s1, 512 * g.volbase + 512, info); Recorded(g, [], s, r, dirSect, o, e) && SectorOf(r, g.volbase + 1) == info
  {
    assert OpenRecord(0);
    var at := 512 * g.volbase + 512;
    PatchAway(s1, at, info, 512 * dirSect + o, 32);
    PatchedIsThere(s1, at, info);
  }

  /** The write-back of the file's own sector, and then the record. */
  lemma FlushRecorded(g: Geo, secs: seq<nat>, s: seq<Byte>, d: nat, data: seq<Byte>, r: seq<Byte>, dirSect: nat, o: nat, e: Slot)
    requires d in secs && 512 * d + |data| <= |s| && |data| == 512 && Recorded(g, [], Patch(s, 512 * d, data), r, dirSect, o, e)
    ensures Recorded(g, secs, s, r, dirSect, o, e)
  {
    assert OpenRecord(0);
  }

  lemma NothingFlushed(g: Geo, secs: seq<nat>, s: seq<Byte>, r: seq<Byte>, dirSect: nat, o: nat, e: Slot)
    requires Recorded(g, [], s, r, dirSect, o, e)
    ensures Recorded(g, secs, s, r, dirSect, o, e)
  {
    assert OpenRecord(0);
  }

  lemma RecordedEntry(g: Geo, secs: seq<nat>, s: seq<Byte>, r: seq<Byte>, dirSect: nat, o: nat, e: Slot)
    requires Recorded(g, secs, s, r, dirSect, o, e)
    ensures EntryOf(r, dirSect, o) == e
  {
    assert OpenRecord(0);
  }

  /** A record leaves the boot record and everything outside the volume alone. */
  lemma RecordedInside(g: Geo, secs: seq<nat>, s: seq<Byte>, r: seq<Byte>, dirSect: nat, o: nat, e: Slot)
    requires Recorded(g, secs, s, r, dirSect, o, e) && g.volbase < FatEnd(g) <= dirSect < VolumeEnd(g)
    requires forall k {:trigger secs[k]} :: 0 <= k < |secs| ==> g.volbase < secs[k] < VolumeEnd(g)
    ensures OutsideKept(g, s, r)
  {
    assert OpenRecord(0);
  }

  /** A sector that a record does not touch. */
  lemma RecordedSector(g: Geo, s: seq<Byte>, r: seq<Byte>, dirSect: nat, o: nat, e: Slot, k: nat)
    requires Recorded(g, [], s, r, dirSect, o, e) && k != dirSect && k != g.volbase + 1 && 512 * k + 512 <= |s|
    ensures SectorOf(r, k) == SectorOf(s, k)
  {
    assert OpenRecord(0);
    var x, y := SectorOf(r, k), SectorOf(s, k);
    forall i | 0 <= i < 512 ensures x[i] == y[i] { assert x[i] == r[512 * k + i]; }
  }

  /** Update the entry and synchronise: the medium is the logical disk and holds the entry. */
  method RecordEntry(fs: Fatfs, dirSect: Word32, o: nat, sclust: nat, size: nat, tm: Word32)
    requires fs.Valid() && FatEnd(fs.g) <= dirSect < NONE && 512 * dirSect + 512 <= |fs.store| && o + 32 <= 512 && fs.g.volbase < fs.g.fatbase
    modifies fs`wflag, fs`winsect, fs`store, fs`fsiFlag, fs.win, fs.disk
    ensures InfoSafe(fs.g) ==> fs.Valid() && (fs.winsect == dirSect || fs.winsect == fs.g.volbase + 1)
    ensures !fs.wflag && fs.disk[..] == fs.store && |fs.store| == |old(fs.store)|
    ensures InfoSafe(fs.g) ==> Recorded(fs.g, [], old(fs.store), fs.store, dirSect, o, Updated(fs.g.fsType, EntryOf(old(fs.store), dirSect, o), sclust, size, tm))
    ensures InfoSafe(fs.g) && old(InfoDue(fs)) ==> InfoStored(fs.g, fs.store, fs.freeClst, fs.lastClst)
    ensures InfoSafe(fs.g) ==> HintsCurrent(fs.g, fs.store, fs.freeClst, fs.lastClst)
  {
    ghost var s, e := fs.store, Updated(fs.g.fsType, EntryOf(fs.store, dirSect, o), sclust, size, tm);
    UpdateEntry(fs, dirSect, o, sclust, size, tm);
    EntryRecorded(fs.g, s, dirSect, o, e);
    SyncRecord(fs, s, dirSect, o, e);
  }

  /** sync_fs on a volume whose logical disk has the entry. */
  method SyncRecord(fs: Fatfs, ghost s: seq<Byte>, ghost dirSect: nat, ghost o: nat, ghost e: Slot)
    requires fs.Valid() && FatEnd(fs.g) <= dirSect && fs.g.volbase < fs.g.fatbase && fs.winsect == dirSect && Recorded(fs.g, [], s, fs.store, dirSect, o, e)
    modifies fs`wflag, fs`winsect, fs`store, fs`fsiFlag, fs.win, fs.disk
    ensures InfoSafe(fs.g) ==> fs.Valid() && (fs.winsect == dirSect || fs.winsect == fs.g.volbase + 1)
    ensures !fs.wflag && fs.disk[..] == fs.store && |fs.store| == |s|
    ensures InfoSafe(fs.g) ==> Recorded(fs.g, [], s, fs.store, dirSect, o, e) && HintsCurrent(fs.g, fs.store, fs.freeClst, fs.lastClst)
    ensures InfoSafe(fs.g) && old(InfoDue(fs)) ==> InfoStored(fs.g, fs.store, fs.freeClst, fs.lastClst)
  {
    ghost var due, s1 := InfoDue(fs), fs.store;
    SyncFs(fs);
    if InfoSafe(fs.g) { RecordSynced(fs.g, s, s1, fs.store, dirSect, o, e, due, fs.freeClst, fs.lastClst); }
  }

  /** The entry is written, and the FSINFO sector if it is due. */
  lemma RecordSynced(g: Geo, s0: seq<Byte>, s1: seq<Byte>, r: seq<Byte>, dirSect: nat, o: nat, e: Slot, due: bool, free: Word32, last: Word32)
    requires Recorded(g, [], s0, s1, dirSect, o, e) && FatEnd(g) <= dirSect && 512 * g.volbase + 1024 <= |s1| && InfoSafe(g)
    requires due ==> g.fsType == Fat32
    requires r == if due then Patch(s1, 512 * g.volbase + 512, InfoSector(free, last)) else s1
    ensures Recorded(g, [], s0, r, dirSect, o, e) && (due ==> InfoStored(g, r, free, last))
  {
    if due { InfoRecorded(g, s0, s1, dirSect, o, e, InfoSector(free, last)); }
  }

  /** The FSINFO sector holds the hints. */
  ghost predicate InfoStored(g: Geo, s: seq<Byte>, free: Word32, last: Word32) {
    512 * g.volbase + 1024 <= |s| && SectorOf(s, g.volbase + 1) == InfoSector(free, last)
  }

  /** A clean file depends on its own sectors and on the one its buffer stands for. */
  lemma FileUntouched(g: Geo, s: seq<Byte>, w: nat, r: seq<Byte>, w': nat, x: Chain, secs: seq<nat>, content: seq<Byte>, c: Cache, dirSect: nat, o: nat, e: Slot)
    requires ContentHeld(g, s, w, x, secs, content, c) && Coherent(s, c) && !c.dirty && Recorded(g, [], s, r, dirSect, o, e)
    requires NotAmong(secs, dirSect) && dirSect != c.sect && (w' == dirSect || w' == g.volbase + 1) && InfoSafe(g)
    ensures ContentHeld(g, r, w', x, secs, content, c) && Coherent(r, c)
  {
    assert OpenData(0);
    forall k {:trigger secs[k]} | 0 <= k < |secs| && 512 * secs[k] + 512 <= |s|
      ensures r[512 * secs[k]..512 * secs[k] + 512] == s[512 * secs[k]..512 * secs[k] + 512] && secs[k] != w'
    {
      var p := SectorsFrom(g, x, k);
      RecordedSector(g, s, r, dirSect, o, e, secs[k]);
    }
    if c.sect != 0 { RecordedSector(g, s, r, dirSect, o, e, c.sect); }
    HoldsFrame(content, secs, s, r, c);
  }

  /** f_sync on a modified file: the entry describes it, the medium holds it, and the file itself has not changed. */
  method FSync(f: Fil, dirSect: Word32, o: nat, tm: Word32) returns (res: FResult)
    requires f.Valid() && EntryApart(f, dirSect, o) && f.fs.g.volbase < f.fs.g.fatbase
    modifies f`dirty, f`modified, f.fs`wflag, f.fs`winsect, f.fs`store, f.fs`fsiFlag, f.fs.win, f.fs.disk
    ensures res == FrOk && !f.modified && |f.fs.store| == |old(f.fs.store)| && EntryApart(f, dirSect, o) && (InfoSafe(f.fs.g) ==> f.Valid())
    ensures !old(f.modified) ==> f.Valid() && f.fs.store == old(f.fs.store) && f.dirty == old(f.dirty)
    ensures old(f.modified) ==> !f.dirty && f.fs.disk[..] == f.fs.store && !f.fs.wflag
    ensures old(f.modified) && InfoSafe(f.fs.g) ==>
      Recorded(f.fs.g, f.secs, old(f.fs.store), f.fs.store, dirSect, o, Updated(f.fs.g.fsType, EntryOf(old(f.fs.store), dirSect, o), f.sclust, f.objsize, tm))
    ensures old(f.modified) && InfoSafe(f.fs.g) && old(InfoDue(f.fs)) ==> InfoStored(f.fs.g, f.fs.store, f.fs.freeClst, f.fs.lastClst)
    ensures old(f.modified) && InfoSafe(f.fs.g) ==> HintsCurrent(f.fs.g, f.fs.store, f.fs.freeClst, f.fs.lastClst)
    ensures old(f.modified) && InfoSafe(f.fs.g) ==>
      SyncedEntry(f.fs.g.fsType, EntryOf(old(f.fs.store), dirSect, o), EntryOf(f.fs.store, dirSect, o), f.sclust, f.objsize, tm)
  {
    res := FrOk;
    if f.modified {
      ghost var s := f.fs.store;
      SyncModified(f, dirSect, o, tm);
      if InfoSafe(f.fs.g) {
        ghost var e := EntryOf(s, dirSect, o);
        RecordedEntry(f.fs.g, f.secs, s, f.fs.store, dirSect, o, Updated(f.fs.g.fsType, e, f.sclust, f.objsize, tm));
        UpdatedMeans(f.fs.g.fsType, e, f.sclust, f.objsize, tm);
      }
      f.modified := false;
    }
  }

  method SyncModified(f: Fil, dirSect: Word32, o: nat, tm: Word32)
    requires f.Valid() && EntryApart(f, dirSect, o) && f.fs.g.volbase < f.fs.g.fatbase
    modifies f`dirty, f.fs`wflag, f.fs`winsect, f.fs`store, f.fs`fsiFlag, f.fs.win, f.fs.disk
    ensures (InfoSafe(f.fs.g) ==> f.Valid()) && |f.fs.store| == |old(f.fs.store)| && !f.dirty && f.fs.disk[..] == f.fs.store && !f.fs.wflag
    ensures InfoSafe(f.fs.g) ==>
      Recorded(f.fs.g, f.secs, old(f.fs.store), f.fs.store, dirSect, o, Updated(f.fs.g.fsType, EntryOf(old(f.fs.store), dirSect, o), f.sclust, f.objsize, tm))
    ensures InfoSafe(f.fs.g) && old(InfoDue(f.fs)) ==> InfoStored(f.fs.g, f.fs.store, f.fs.freeClst, f.fs.lastClst)
    ensures InfoSafe(f.fs.g) ==> HintsCurrent(f.fs.g, f.fs.store, f.fs.freeClst, f.fs.lastClst)
  {
    ghost var s, data, dirty := f.fs.store, f.buf[..], f.dirty;
    WriteBack(f, dirSect, o);
    RecordFile(f, dirSect, o, tm);
    if InfoSafe(f.fs.g) {
      ghost var e := Updated(f.fs.g.fsType, EntryOf(s, dirSect, o), f.sclust, f.objsize, tm);
      if dirty {
        FlushRecorded(f.fs.g, f.secs, s, f.sect, data, f.fs.store, dirSect, o, e);
      } else {
        NothingFlushed(f.fs.g, f.secs, s, f.fs.store, dirSect, o, e);
      }
    }
  }

  /** The rest of f_sync, with a clean buffer. */
  method RecordFile(f: Fil, dirSect: Word32, o: nat, tm: Word32)
    requires f.Valid() && !f.dirty && EntryApart(f, dirSect, o) && f.fs.g.volbase < f.fs.g.fatbase
    modifies f.fs`wflag, f.fs`winsect, f.fs`store, f.fs`fsiFlag, f.fs.win, f.fs.disk
    ensures (InfoSafe(f.fs.g) ==> f.Valid()) && |f.fs.store| == |old(f.fs.store)| && f.fs.disk[..] == f.fs.store && !f.fs.wflag
    ensures InfoSafe(f.fs.g) ==>
      Recorded(f.fs.g, [], old(f.fs.store), f.fs.store, dirSect, o, Updated(f.fs.g.fsType, EntryOf(old(f.fs.store), dirSect, o), f.sclust, f.objsize, tm))
    ensures InfoSafe(f.fs.g) && old(InfoDue(f.fs)) ==> InfoStored(f.fs.g, f.fs.store, f.fs.freeClst, f.fs.lastClst)
    ensures InfoSafe(f.fs.g) ==> HintsCurrent(f.fs.g, f.fs.store, f.fs.freeClst, f.fs.lastClst)
  {
    ghost var s1, w1 := f.fs.store, f.fs.winsect;
    ghost var e := Updated(f.fs.g.fsType, EntryOf(s1, dirSect, o), f.sclust, f.objsize, tm);
    assert f.fs.Valid() && (f.exact ==> f.fs.CountOk()) && Unseen(f.fs.g, f.watched, w1) by { assert OpenCore(0) && OpenData(0); }
    VolumeFacts(f);
    RecordEntry(f.fs, dirSect, o, f.sclust, f.objsize, tm);
    assert OpenCore(0);
    if InfoSafe(f.fs.g) {
      FileUntouched(f.fs.g, s1, w1, f.fs.store, f.fs.winsect, f.chain, f.secs, f.content, f.Buffer(), dirSect, o, e);
    }
  }

  /** The write-back of f_sync. */
  method WriteBack(f: Fil, ghost dirSect: nat, ghost o: nat)
    requires f.Valid() && EntryApart(f, dirSect, o)
    modifies f`dirty, f.fs`store, f.fs.disk
    ensures f.Valid() && !f.dirty && EntryApart(f, dirSect, o) && |f.fs.store| == |old(f.fs.store)|
    ensures if old(f.dirty) then f.sect in f.secs && 512 * f.sect + 512 <= |f.fs.store| && |f.buf[..]| == 512 && f.fs.store == Patch(old(f.fs.store), 512 * f.sect, f.buf[..]) else f.fs.store == old(f.fs.store)
    ensures EntryOf(f.fs.store, dirSect, o) == EntryOf(old(f.fs.store), dirSect, o)
  {
    assert OpenCore(0);
    ghost var s := f.fs.store;
    DirtyIsOwn(f);
    f.Flush();
    if f.fs.store != s { PatchAway(s, 512 * f.sect, f.buf[..], 512 * dirSect + o, 32); }
  }

  /** A dirty buffer stands for a sector of the file. */
  lemma DirtyIsOwn(f: Fil)
    requires f.Valid()
    ensures f.dirty ==> f.sect in f.secs
  {
    assert OpenCore(0);
    assert OpenData(0);
  }

  /** What opening the file needs to know about it, once it is clean on the medium. */
  lemma SyncedFacts(f: Fil)
    requires f.Valid() && !f.dirty && !f.fs.wflag
    ensures var fs := f.fs;
      && fs.Valid() && DataOk(fs.g, |fs.store|) && Mirrored(fs.g, fs.store) && fs.disk[..] == fs.store && |fs.store| <= 512 * NONE
      && OnMedium(f.content, f.secs, fs.store) && Clusters(fs.g, f.chain) && f.secs == Sectors(fs.g, f.chain)
      && WellFormed(fs.fat, if f.chain == [] then f.others else f.others + {f.chain}) && f.chain !in f.others
      && f.sclust == if f.chain == [] then 0 else f.chain[0]
  {
    assert OpenCore(0);
    assert OpenData(0);
    assert OpenChain(0);
    assert Unseal(0);
    f.fs.CleanMedium();
    CleanIsOnMedium(f.content, f.secs, f.fs.store, f.Buffer());
  }

  /** A first cluster fits the entry's field. */
  lemma ClusterFits(g: Geo, x: Chain, sclust: nat)
    requires FatOk(g) && Clusters(g, x) && sclust == if x == [] then 0 else x[0]
    ensures sclust < 0x1_0000_0000 && (g.fsType != Fat32 ==> sclust < 0x1_0000)
  {
  }

  /** The entry gives the first cluster and the size of a file with chain x. */
  ghost predicate Describes(t: FatType, e: Slot, x: Chain, size: nat) {
    |e| == 32 && LdClust(t, e) == (if x == [] then 0 else x[0]) < 0x1_0000_0000 && LdDword(e, 28) == size
  }

  /** f_sync, and what the medium then holds. */
  method SyncToMedium(f: Fil, dirSect: Word32, o: nat, tm: Word32)
    requires f.Valid() && f.modified && EntryApart(f, dirSect, o) && InfoSafe(f.fs.g) && Mountable(f.fs.g, f.fs.store)
    modifies f`dirty, f`modified, f.fs`wflag, f.fs`winsect, f.fs`store, f.fs`fsiFlag, f.fs.win, f.fs.disk
    ensures f.Valid() && !f.dirty && !f.fs.wflag && f.fs.disk[..] == f.fs.store && Mountable(f.fs.g, f.fs.store) && EntryApart(f, dirSect, o)
    ensures OutsideKept(f.fs.g, old(f.fs.store), f.fs.store) && 512 * f.fs.g.volbase + 1024 <= |f.fs.store|
    ensures Describes(f.fs.g.fsType, EntryOf(f.fs.store, dirSect, o), f.chain, |f.content|)
    ensures Recorded(f.fs.g, f.secs, old(f.fs.store), f.fs.store, dirSect, o, Updated(f.fs.g.fsType, EntryOf(old(f.fs.store), dirSect, o), f.sclust, f.objsize, tm))
    ensures old(InfoDue(f.fs)) ==> InfoStored(f.fs.g, f.fs.store, f.fs.freeClst, f.fs.lastClst)
    ensures HintsCurrent(f.fs.g, f.fs.store, f.fs.freeClst, f.fs.lastClst)
  {
    ghost var s := f.fs.store;
    ghost var e := Updated(f.fs.g.fsType, EntryOf(s, dirSect, o), f.sclust, f.objsize, tm);
    var res := FSync(f, dirSect, o, tm);
    SyncedFacts(f);
    ClusterFits(f.fs.g, f.chain, f.sclust);
    EntryReadBack(f.fs.g.fsType, EntryOf(s, dirSect, o), f.sclust, f.objsize, tm);
    RecordedEntry(f.fs.g, f.secs, s, f.fs.store, dirSect, o, e);
    ghost var secs := f.secs;
    forall k {:trigger secs[k]} | 0 <= k < |secs| ensures f.fs.g.volbase < secs[k] < VolumeEnd(f.fs.g) { SectorInData(f, k); }
    RecordedInside(f.fs.g, f.secs, s, f.fs.store, dirSect, o, e);
    MountableKept(f.fs.g, s, f.fs.store);
  }

  /** After f_sync, mounting the medium and opening the file by its entry yields the same bytes. */
  method SyncAndReopen(f: Fil, dirSect: Word32, o: nat, tm: Word32) returns (f': Fil)
    requires f.Valid() && f.modified && EntryApart(f, dirSect, o) && InfoSafe(f.fs.g) && Mountable(f.fs.g, f.fs.store)
    modifies f`dirty, f`modified, f.fs`wflag, f.fs`winsect, f.fs`store, f.fs`fsiFlag, f.fs.win, f.fs.disk
    ensures fresh(f') && fresh(f'.fs) && f'.fs.disk == f.fs.disk && f'.fs.g == f.fs.g && f'.Valid()
    ensures f'.content == old(f.content) && f'.chain == f.chain && f'.others == f.others && f'.fs.fat == f.fs.fat
    ensures f.exact ==> f'.exact
    ensures InfoUsed(f.fs.g, old(f.fs.store)) ==> f'.fs.freeClst == f.fs.freeClst && f'.fs.lastClst == f.fs.lastClst
  {
    ghost var s := f.fs.store;
    SyncToMedium(f, dirSect, o, tm);
    SyncedFacts(f);
    if f.exact { CountSurvives(f); }
    SameUse(f.fs.g, s, f.fs.store);
    f' := Reopen(f.fs.disk, f.fs.g, dirSect, o, f.fs.store, f.fs.fat, f.chain, f.others, f.content);
  }

  /** A mount of the medium and the end of f_open for an entry. */
  method Reopen(disk: array<Byte>, ghost g: Geo, dirSect: Word32, o: nat, ghost s: seq<Byte>, ghost fat: Fat, ghost x: Chain, ghost others: set<Chain>, ghost data: seq<Byte>)
    returns (f: Fil)
    requires disk[..] == s && Mountable(g, s) && |s| <= 512 * NONE && Fits(g, |s|) && g.volbase < g.fatbase && Mirrored(g, s) && IsTable(g, s, fat) && DataOk(g, |s|)
    requires WellFormed(fat, if x == [] then others else others + {x}) && x !in others && Clusters(g, x) && OnMedium(data, Sectors(g, x), s)
    requires FatEnd(g) <= dirSect && 512 * dirSect + 512 <= |s| && o + 32 <= 512 && NotAmong(Sectors(g, x), dirSect)
    requires Describes(g.fsType, EntryOf(s, dirSect, o), x, |data|)
    modifies disk
    ensures fresh(f) && fresh(f.fs) && f.fs.disk == disk && f.fs.g == g && f.Valid() && f.readable && f.writable && f.fptr == 0
    ensures f.content == data && f.chain == x && f.others == others && f.fs.fat == fat
    ensures 512 * g.volbase + 1024 <= |s| && (CountFits(g, fat, Hints(g, s).freeClst) ==> f.exact)
    ensures f.fs.freeClst == Hints(g, s).freeClst && f.fs.lastClst == Hints(g, s).lastClst
  {
    var fs := MountAgain(disk, g, s, fat);
    f := OpenEntry(fs, dirSect, o, x, others, Sectors(g, x), |data|);
    OneContent(data, f.content, Sectors(g, x), s);
  }

  /** The count of free clusters is unknown or exact. */
  ghost predicate CountFits(g: Geo, fat: Fat, free: nat) { |fat| == g.nFatent >= 2 && (free > g.nFatent - 2 || free == FreeCount(fat)) }

  /** The hints that f_sync left describe the free clusters. */
  lemma CountSurvives(f: Fil)
    requires f.Valid() && f.exact && InfoSafe(f.fs.g) && 512 * f.fs.g.volbase + 1024 <= |f.fs.store|
    requires HintsCurrent(f.fs.g, f.fs.store, f.fs.freeClst, f.fs.lastClst)
    ensures CountFits(f.fs.g, f.fs.fat, Hints(f.fs.g, f.fs.store).freeClst)
  {
    assert OpenCore(0);
    assert OpenData(0);
  }

  /** The boot record says whether FSINFO is used, and f_sync does not change it. */
  lemma SameUse(g: Geo, s: seq<Byte>, r: seq<Byte>)
    requires OutsideKept(g, s, r) && 512 * g.volbase + 1024 <= |s|
    ensures InfoUsed(g, s) <==> InfoUsed(g, r)
  {
    OutsideSector(g, s, r, g.volbase);
  }

  /** find_volume on a medium that holds a volume. */
  method MountAgain(disk: array<Byte>, ghost g: Geo, ghost s: seq<Byte>, ghost fat: Fat) returns (fs: Fatfs)
    requires disk[..] == s && Mountable(g, s) && |s| <= 512 * NONE && Fits(g, |s|) && g.volbase < g.fatbase && Mirrored(g, s) && IsTable(g, s, fat)
    ensures fresh(fs) && fresh(fs.win) && fs.disk == disk && fs.Valid() && fs.g == g && fs.store == s && fs.fat == fat
    ensures 512 * g.volbase + 1024 <= |s| && fs.freeClst == Hints(g, s).freeClst && fs.lastClst == Hints(g, s).lastClst
  {
    var found := FindLayout(disk, g, s);
    var image := disk[..];
    var info := LoadFsInfo(found.fsType, ReadBpb(SectorOf(image, found.volbase)), SectorOf(image, found.volbase + 1));
    fs := new Fatfs(disk, found, info.lastClst, info.freeClst, info.flag);
    TableIsUnique(g, s, fs.fat, fat);
  }

  /** The layout find_volume works out. */
  method FindLayout(disk: array<Byte>, ghost g: Geo, ghost s: seq<Byte>) returns (found: Geo)
    requires disk[..] == s && Mountable(g, s)
    ensures found == g
  {
    assert OpenBoot(0);
    forall b: nat ensures !NoVolume(s) && (IsVolumeStart(s, b) ==> b == g.volbase) { LocatedIsFound(g, s, b); }
    var o := FindVolume(disk);
    found := o.g;
  }

  /** The end of f_open: first cluster and size come from the directory entry. */
  method OpenEntry(fs: Fatfs, dirSect: Word32, o: nat, ghost x: Chain, ghost others: set<Chain>, ghost secs: seq<nat>, ghost size: nat) returns (f: Fil)
    requires fs.Valid() && DataOk(fs.g, |fs.store|) && FatEnd(fs.g) <= dirSect && 512 * dirSect + 512 <= |fs.store| && o + 32 <= 512
    requires WellFormed(fs.fat, if x == [] then others else others + {x}) && x !in others
    requires Clusters(fs.g, x) && secs == Sectors(fs.g, x) && NotAmong(secs, dirSect) && size <= 512 * |secs|
    requires Describes(fs.g.fsType, EntryOf(fs.store, dirSect, o), x, size)
    modifies fs`wflag, fs`winsect, fs.win, fs.disk
    ensures f.Valid() && fresh(f) && fresh(f.buf) && f.fs == fs && f.chain == x && f.others == others && |f.content| == size && f.exact == fs.CountOk() && f.readable && f.writable && f.fptr == 0
    ensures OnMedium(f.content, secs, fs.store)
  {
    fs.MoveWindow(dirSect);
    assert fs.WindowFacts() by { assert Unseal(0); }
    var e := fs.win[o..o + 32];
    assert e == EntryOf(fs.store, dirSect, o);
    forall i | 0 <= i < |x| ensures !InCluster(fs.g, x[i], fs.winsect) {
      if InCluster(fs.g, x[i], dirSect) { SectorsAt(fs.g, x, i, dirSect - ClusterSect(fs.g, x[i])); }
    }
    f := new Fil(fs, true, true, LdClust(fs.g.fsType, e), LdDword(e, 28), x, others);
  }

  /** A run on a file leaves the boot record and everything outside the volume alone. */
  lemma KeptInside(g: Geo, others: set<Chain>, s: seq<Byte>, r: seq<Byte>)
    requires Kept(g, others, s, r) && g.volbase < g.fatbase && FatEnd(g) <= g.database
    ensures OutsideKept(g, s, r)
  {
    assert OpenKept(0);
  }

  /** Any run of operations, then f_sync, then a new mount: the file opened by its entry holds what the run left. */
  method RunAndReopen(f: Fil, ops: seq<FileRuns.Op>, dirSect: Word32, o: nat, tm: Word32) returns (outs: seq<FileRuns.Report>, f': Fil?, ghost sts: seq<FileRuns.State>)
    requires f.Valid() && f.readable && f.writable
    requires forall i {:trigger ops[i]} :: 0 <= i < |ops| && ops[i].Write? ==> |ops[i].data| <= 0xFFFF_FFFF
    requires EntryPlace(f.fs.g, f.others, |f.fs.store|, dirSect, o) && NotAmong(f.watched, dirSect) && InfoSafe(f.fs.g) && Mountable(f.fs.g, f.fs.store)
    modifies f, f.buf, f.fs, f.fs.win, f.fs.disk
    ensures FileRuns.Run(f.fs.g, f.others, f.exact, sts, ops, outs) && sts[0] == old(StateOf(f)) && f.others == old(f.others)
    ensures f' != null <==> sts[|ops|].m.modified
    ensures f' != null ==> fresh(f') && f'.Valid() && f'.fs.disk == f.fs.disk && f'.fs.g == f.fs.g
    ensures f' != null ==> f'.content == sts[|ops|].m.bytes && f'.chain == sts[|ops|].chain && f'.others == f.others && f'.fs.fat == sts[|ops|].fat && (f.exact ==> f'.exact)
  {
    VolumeFacts(f);
    ghost var s := f.fs.store;
    outs, sts := Execute(f, ops);
    f' := null;
    if f.modified {
      KeptInside(f.fs.g, f.others, s, f.fs.store);
      MountableKept(f.fs.g, s, f.fs.store);
      PlaceIsApart(f, dirSect, o);
      f' := SyncAndReopen(f, dirSect, o, tm);
    }
  }

  lemma VolumeFacts(f: Fil)
    requires f.Valid()
    ensures f.fs.g.fatbase < FatEnd(f.fs.g) <= f.fs.g.database
  {
    assert OpenCore(0);
    assert OpenData(0);
  }
}
