/** The mounted volume: the sector window, the FAT and the cluster allocator. */
module Volume {
  import opened Machine
  import opened Geometry
  import opened DiskIo
  import opened Chains
  import opened FileView
  import opened DataArea
  import opened FatBits
  import opened Mount

  /** Proofs that need the body of a sealed predicate mention Unseal; all others see only its name. */
  ghost predicate Unseal(k: int) { true }

  ghost predicate OpenInfo(k: int) { true }

  predicate InSector(w: nat, x: int) { 512 * w <= x < 512 * w + 512 }

  /** What a byte stored in sector w changes: that byte, and its twin in the other FAT. */
  lemma PokedElsewhere(g: Geo, s: seq<Byte>, w: nat, j: nat, v: Byte)
    requires Fits(g, |s|) && 512 * w + 512 <= |s| && !InFat2(g, w) && j < 512
    ensures var r := SetByte(g, s, 512 * w + j, v);
      && |r| == |s| && (forall i {:trigger r[512 * w + i]} :: 0 <= i < 512 ==> r[512 * w + i] == if i == j then v else s[512 * w + i])
      && (forall x {:trigger r[x]} :: 0 <= x < |s| ==> r[x] == s[x] || InSector(w, x) || (g.nFats == 2 && InFat1(g, w) && InSector(w, x - 512 * g.fsize)))
  {
    SetByteElsewhere(g, s, 512 * w + j, v);
  }

  class Fatfs {
    const disk: array<Byte>
    const win: array<Byte>
    const g: Geo
    var winsect: Word32
    var wflag: bool
    var lastClst: Word32
    var freeClst: Word32
    var fsiFlag: Byte
    /** The logical disk: the medium overlaid with the pending window. */
    ghost var store: seq<Byte>
    /** The FAT as a table of entry values. */
    ghost var fat: seq<nat>

    /** The end of find_volume: the object for a volume with layout g, the window on its boot record. */
    constructor (disk: array<Byte>, g: Geo, lastClst: Word32, freeClst: Word32, fsiFlag: Byte)
      requires disk.Length <= 512 * NONE && Fits(g, disk.Length) && g.volbase < g.fatbase && Mirrored(g, disk[..])
      requires HintsHeld(g, disk[..], freeClst, lastClst, fsiFlag)
      ensures Valid() && fresh(win)
      ensures this.disk == disk && this.g == g && store == disk[..] && winsect == g.volbase && !wflag
      ensures this.lastClst == lastClst && this.freeClst == freeClst && this.fsiFlag == fsiFlag
    {
      this.disk, this.g := disk, g;
      this.lastClst, this.freeClst, this.fsiFlag := lastClst, freeClst, fsiFlag;
      win := new Byte[512];
      wflag, winsect := false, g.volbase;
      ghost var image := disk[..];
      store := image;
      fat := seq(g.nFatent, c requires 0 <= c < g.nFatent => Entry(g, image, c));
      new;
      DiskRead(disk, win, 0, g.volbase, 1);
    }

    ghost predicate InWindow(a: int)
      reads this`winsect
    {
      512 * winsect <= a < 512 * winsect + 512
    }

    /** The medium at address a is out of date. */
    ghost predicate Pending(a: int)
      reads this`winsect, this`wflag
    {
      wflag && (InWindow(a) || (g.nFats == 2 && InFat1(g, winsect) && InWindow(a - 512 * g.fsize)))
    }

    /** The window agrees with the logical disk. */
    ghost predicate WindowOk()
      reads this`winsect, this`wflag, this`store, disk, win
    {
      && disk != win && win.Length == 512
      && |store| == disk.Length <= 512 * NONE
      && Fits(g, |store|)
      && (winsect == NONE || 512 * winsect + 512 <= |store|)
      && (wflag ==> winsect != NONE && !InFat2(g, winsect))
      && forall k {:trigger Unseal(k)} :: Unseal(k) ==> WindowFacts()
    }

    ghost predicate WindowFacts()
      requires disk != win && win.Length == 512 && |store| == disk.Length && Fits(g, |store|)
      requires winsect == NONE || 512 * winsect + 512 <= |store|
      reads this`winsect, this`wflag, this`store, disk, win
    {
      && (winsect != NONE ==> forall j {:trigger win[j]} :: 0 <= j < 512 ==> win[j] == store[512 * winsect + j])
      && (forall a {:trigger disk[a]} :: 0 <= a < |store| && !Pending(a) ==> disk[a] == store[a])
      && Mirrored(g, store)
    }

    /** With a clean window the medium is the logical disk, and the second FAT on it equals the first. */
    lemma CleanMedium()
      requires WindowOk() && !wflag
      ensures disk[..] == store
      ensures g.nFats == 2 ==> forall a {:trigger Twin(g, a)} :: Fat1Byte(g, a) ==> disk[Twin(g, a)] == disk[a]
    {
      assert Unseal(0);
    }

    lemma WindowTwins()
      requires Fits(g, |store|) && Mirrored(g, store) && g.nFats == 2 && InFat1(g, winsect)
      ensures forall a {:trigger store[a]} :: InWindow(a - 512 * g.fsize) && 0 <= a < |store| ==> store[a] == store[a - 512 * g.fsize]
    {
      forall a | InWindow(a - 512 * g.fsize) && 0 <= a < |store|
        ensures store[a] == store[a - 512 * g.fsize]
      {
        assert Twin(g, a - 512 * g.fsize) == a;
      }
    }

    method SyncWindow()
      requires WindowOk()
      modifies this`wflag, disk
      ensures WindowOk() && !wflag
    {
      assert Unseal(0);
      if wflag {
        DiskWrite(disk, win, 0, winsect, 1);
        wflag := false;
        if Sub32(winsect, g.fatbase) < g.fsize {
          if g.nFats == 2 {
            WindowTwins();
            DiskWrite(disk, win, 0, winsect + g.fsize, 1);
          }
        }
      }
    }

    method MoveWindow(sector: Word32)
      requires WindowOk() && 512 * sector + 512 <= |store|
      modifies this`wflag, this`winsect, win, disk
      ensures WindowOk() && winsect == sector
      ensures old(winsect) == sector ==> wflag == old(wflag)
      ensures old(winsect) != sector ==> !wflag
    {
      assert Unseal(0);
      if sector != winsect {
        SyncWindow();
        DiskRead(disk, win, 0, sector, 1);
        winsect := sector;
      }
    }

    /** Store a byte in the window and mark it dirty. */
    method Poke(j: nat, v: Byte)
      requires WindowOk() && j < 512
      requires winsect != NONE && !InFat2(g, winsect)
      modifies this`wflag, this`store, win
      ensures WindowOk() && wflag
      ensures Stepped(g, old(store), store, 512 * winsect + j, v)
    {
      ghost var a := 512 * winsect + j;
      assert WindowFacts() by { assert Unseal(0); }
      SetByteKeepsMirror(g, store, a, v);
      PokedElsewhere(g, store, winsect, j, v);
      ghost var s := SetByte(g, store, a, v);
      win[j] := v;
      wflag := true;
      store := s;
      assert WindowFacts();
    }

    /** Bring the sector that holds byte bc of the FAT into the window. */
    method SeekFat(bc: nat)
      requires WindowOk() && Fat1Byte(g, 512 * g.fatbase + bc)
      modifies this`wflag, this`winsect, win, disk
      ensures WindowOk() && winsect == g.fatbase + bc / 512
      ensures winsect != NONE && InFat1(g, winsect)
      ensures win[bc % 512] == store[512 * g.fatbase + bc]
    {
      assert Unseal(0);
      MoveWindow(g.fatbase + bc / 512);
    }

    method GetFat12(clst: nat) returns (val: nat)
      requires WindowOk() && g.fsType == Fat12 && clst < g.nFatent
      modifies this`wflag, this`winsect, win, disk
      ensures WindowOk() && InFat1(g, winsect)
      ensures val == Entry(g, store, clst) && HasBits(g, store, clst, val)
    {
      EntryHasBits(g, store, clst);
      EntryInFat(g, clst);
      var bc := clst;
      bc := bc + bc / 2;
      SeekFat(bc);
      var wc: nat := win[bc % 512];
      bc := bc + 1;
      SeekFat(bc);
      wc := wc + 0x100 * (win[bc % 512] as int);
      val := if clst % 2 == 1 then wc / 16 else wc % 0x1000;
    }

    method GetFat16(clst: nat) returns (val: nat)
      requires WindowOk() && g.fsType == Fat16 && clst < g.nFatent
      modifies this`wflag, this`winsect, win, disk
      ensures WindowOk() && InFat1(g, winsect)
      ensures val == Entry(g, store, clst) && HasBits(g, store, clst, val)
    {
      EntryHasBits(g, store, clst);
      EntryInFat(g, clst);
      SeekFat(clst * 2);
      EntryInWindow(clst, clst * 2 % 512);
      LdWordSlice(win[..], clst * 2 % 512);
      val := LdWord(win[..], clst * 2 % 512);
    }

    /** The bytes of an entry that is inside the window. */
    lemma EntryInWindow(clst: nat, i: nat)
      requires WindowOk() && clst < g.nFatent && winsect == g.fatbase + EntryOffset(g.fsType, clst) / 512 && winsect != NONE
      requires i == EntryOffset(g.fsType, clst) % 512 && i + EntrySpan(g.fsType) <= 512
      ensures win[..][i..i + EntrySpan(g.fsType)] == EntryBytes(g, store, clst)
    {
      assert Unseal(0);
      EntryInFat(g, clst);
      var x, y, o := win[..][i..i + EntrySpan(g.fsType)], EntryBytes(g, store, clst), EntryOffset(g.fsType, clst);
      assert EntryAddr(g, clst) == 512 * winsect + i by { assert o == o / 512 * 512 + o % 512; }
      forall k | 0 <= k < EntrySpan(g.fsType) ensures x[k] == y[k] { assert x[k] == win[i + k]; }
    }

    /** The whole double word of a FAT32 entry. */
    method LoadEntry32(clst: nat) returns (w: nat)
      requires WindowOk() && g.fsType == Fat32 && clst < g.nFatent
      modifies this`wflag, this`winsect, win, disk
      ensures WindowOk() && InFat1(g, winsect) && winsect != NONE && winsect == g.fatbase + clst * 4 / 512
      ensures w == LdDword(EntryBytes(g, store, clst), 0)
    {
      EntryInFat(g, clst);
      SeekFat(clst * 4);
      EntryPlace(clst);
      EntryInWindow(clst, clst * 4 % 512);
      LdDwordSlice(win[..], clst * 4 % 512);
      w := LdDword(win[..], clst * 4 % 512);
    }

    method GetFat32(clst: nat) returns (val: nat)
      requires WindowOk() && g.fsType == Fat32 && clst < g.nFatent
      modifies this`wflag, this`winsect, win, disk
      ensures WindowOk() && InFat1(g, winsect)
      ensures val == Entry(g, store, clst) && HasBits(g, store, clst, val)
    {
      EntryHasBits(g, store, clst);
      val := LoadEntry32(clst);
      val := val % 0x1000_0000;
    }

    /** Replace byte bc of the FAT, which is in the window. */
    method PokeFat(bc: nat, v: Byte)
      requires WindowOk() && winsect == g.fatbase + bc / 512 && winsect != NONE && InFat1(g, winsect)
      modifies this`wflag, this`store, win
      ensures WindowOk() && wflag
      ensures Stepped(g, old(store), store, 512 * g.fatbase + bc, v)
    {
      Poke(bc % 512, v);
    }

    method PutFat12(clst: nat, val: nat)
      requires WindowOk() && g.fsType == Fat12 && clst < g.nFatent
      modifies this`wflag, this`winsect, this`store, win, disk
      ensures WindowOk() && InFat1(g, winsect)
      ensures Fits(g, |old(store)|) && store == PutEntry(g, old(store), clst, val) && BitsPut(g, old(store), store, clst, val)
    {
      PutEntryBits(g, store, clst, val);
      EntryInFat(g, clst);
      var bc := clst;
      bc := bc + bc / 2;
      ghost var a, s0, old12 := EntryAddr(g, clst), store, EntryBytes(g, store, clst);
      var p := FatByte(bc);
      PokeFat(bc, First12(clst, val, p));
      ghost var s1 := store;
      SteppedElsewhere(g, s0, s1, a, First12(clst, val, old12[0]), a + 1);
      bc := bc + 1;
      p := FatByte(bc);
      PokeFat(bc, Second12(clst, val, p));
      SpliceTwo(g, s0, s1, store, a, Encode(Fat12, clst, val, old12));
    }

    /** Byte bc of the FAT, which is then in the window. */
    method FatByte(bc: nat) returns (p: Byte)
      requires WindowOk() && Fat1Byte(g, 512 * g.fatbase + bc)
      modifies this`wflag, this`winsect, win, disk
      ensures WindowOk() && winsect == g.fatbase + bc / 512 && winsect != NONE && InFat1(g, winsect)
      ensures 512 * g.fatbase + bc < |store| && p == store[512 * g.fatbase + bc]
    {
      SeekFat(bc);
      assert WindowFacts() by { assert Unseal(0); }
      p := win[bc % 512];
    }

    /** st_word into the window, inside the first FAT. */
    method PokeWord(i: nat, w: nat)
      requires WindowOk() && i + 2 <= 512 && winsect != NONE && InFat1(g, winsect)
      modifies this`wflag, this`store, win
      ensures WindowOk() && wflag
      ensures Fits(g, |old(store)|) && store == Splice(g, old(store), 512 * winsect + i, WordBytes(w))
    {
      ghost var s0, a, bs := store, 512 * winsect + i, WordBytes(w);
      Poke(i, w % 0x100);
      ghost var s1 := store;
      Poke(i + 1, w / 0x100 % 0x100);
      SpliceTwo(g, s0, s1, store, a, bs);
    }

    /** st_dword into the window, inside the first FAT. */
    method PokeDword(i: nat, w: nat)
      requires WindowOk() && i + 4 <= 512 && winsect != NONE && InFat1(g, winsect)
      modifies this`wflag, this`store, win
      ensures WindowOk() && wflag
      ensures Fits(g, |old(store)|) && store == Splice(g, old(store), 512 * winsect + i, DwordBytes(w))
    {
      ghost var s0, a, bs := store, 512 * winsect + i, DwordBytes(w);
      PokeWord(i, w);
      ghost var s1 := store;
      PokeWord(i + 2, w / 0x1_0000);
      SpliceAppend(g, s0, a, WordBytes(w), WordBytes(w / 0x1_0000));
      assert w / 0x1_0000 / 0x100 == w / 0x100_0000;
      assert bs == WordBytes(w) + WordBytes(w / 0x1_0000);
    }

    method PutFat16(clst: nat, val: nat)
      requires WindowOk() && g.fsType == Fat16 && clst < g.nFatent
      modifies this`wflag, this`winsect, this`store, win, disk
      ensures WindowOk() && InFat1(g, winsect)
      ensures Fits(g, |old(store)|) && store == PutEntry(g, old(store), clst, val) && BitsPut(g, old(store), store, clst, val)
    {
      PutEntryBits(g, store, clst, val);
      EntryInFat(g, clst);
      SeekFat(clst * 2);
      PokeWord(clst * 2 % 512, val);
    }

    /** A FAT32 entry does not cross a sector. */
    lemma EntryPlace(clst: nat)
      requires g.fsType == Fat32
      ensures 512 * (g.fatbase + clst * 4 / 512) + clst * 4 % 512 == EntryAddr(g, clst) && clst * 4 % 512 + 4 <= 512
    {
    }

    method PutFat32(clst: nat, val: nat)
      requires WindowOk() && g.fsType == Fat32 && clst < g.nFatent
      modifies this`wflag, this`winsect, this`store, win, disk
      ensures WindowOk() && InFat1(g, winsect)
      ensures Fits(g, |old(store)|) && store == PutEntry(g, old(store), clst, val) && BitsPut(g, old(store), store, clst, val)
    {
      PutEntryBits(g, store, clst, val);
      var old32 := LoadEntry32(clst);
      EntryPlace(clst);
      PokeDword(clst * 4 % 512, val % 0x1000_0000 + old32 / 0x1000_0000 * 0x1000_0000);
    }

    /** The volume is mounted and consistent: `fat` is what the logical disk holds. */
    ghost predicate Valid()
      reads this`winsect, this`wflag, this`store, this`fat, this`freeClst, this`lastClst, this`fsiFlag, disk, win
    {
      && WindowOk()
      && IsTable(g, store, fat)
      && InfoOk()
    }

    /** The FSINFO sector holds the hints or is marked as out of date. */
    ghost predicate InfoOk()
      reads this`store, this`freeClst, this`lastClst, this`fsiFlag
    {
      forall k {:trigger OpenInfo(k)} :: OpenInfo(k) ==> HintsHeld(g, store, freeClst, lastClst, fsiFlag)
    }

    /** A change of the logical disk behind the reserved area. */
    lemma InfoStays(s: seq<Byte>)
      requires |s| == |store| && forall a {:trigger store[a]} :: 0 <= a < |s| && a < 512 * g.fatbase ==> store[a] == s[a]
      requires HintsHeld(g, s, freeClst, lastClst, fsiFlag)
      ensures InfoOk()
    {
      HintsStay(g, s, store, freeClst, lastClst, fsiFlag);
    }

    /** New hints, marked. */
    lemma InfoMarked(free: Word32, last: Word32, flag: Byte)
      requires HintsHeld(g, store, free, last, flag) && fsiFlag == Marked(flag)
      ensures InfoOk()
    {
    }

    /** free_clst is the number of free clusters, or marked as unknown. */
    ghost predicate CountOk()
      reads this`freeClst, this`fat
    {
      |fat| == g.nFatent >= 2 && (freeClst > g.nFatent - 2 || freeClst == FreeCount(fat))
    }

    method GetFat(clst: nat) returns (val: nat)
      requires Valid()
      modifies this`wflag, this`winsect, win, disk
      ensures Valid()
      ensures val == if 2 <= clst < |fat| then fat[clst] else 1
      ensures 2 <= clst < |fat| ==> clst < g.nFatent && HasBits(g, store, clst, val)
      ensures val < NONE
      ensures winsect == old(winsect) || InFat1(g, winsect)
      ensures 2 <= clst < |fat| ==> InFat1(g, winsect)
    {
      if clst < 2 || clst >= g.nFatent {
        val := 1;
      } else {
        EntryBound(g, store, clst);
        TrimFacts(g.fsType, 0);
        match g.fsType
        case Fat12 => val := GetFat12(clst);
        case Fat16 => val := GetFat16(clst);
        case Fat32 => val := GetFat32(clst);
      }
    }

    method PutRaw(clst: nat, val: nat)
      requires WindowOk() && clst < g.nFatent
      modifies this`wflag, this`winsect, this`store, win, disk
      ensures WindowOk() && InFat1(g, winsect)
      ensures Fits(g, |old(store)|) && store == PutEntry(g, old(store), clst, val)
    {
      match g.fsType
      case Fat12 => PutFat12(clst, val);
      case Fat16 => PutFat16(clst, val);
      case Fat32 => PutFat32(clst, val);
    }

    method PutFat(clst: nat, val: nat) returns (res: FResult)
      requires Valid()
      modifies this`wflag, this`winsect, this`store, this`fat, win, disk
      ensures Valid()
      ensures res == if 2 <= clst < |fat| then FrOk else FrIntErr
      ensures fat == if res.FrOk? then old(fat)[clst := Trim(g.fsType, val)] else old(fat)
      ensures if res.FrOk? then BitsPut(g, old(store), store, clst, val) else store == old(store)
      ensures SameOutside(g, old(store), store)
      ensures winsect == old(winsect) || InFat1(g, winsect)
      ensures res.FrOk? ==> InFat1(g, winsect)
    {
      res := FrIntErr;
      if 2 <= clst < g.nFatent {
        ghost var s0 := store;
        assert OpenInfo(0);
        PutRaw(clst, val);
        PutEntryBits(g, s0, clst, val);
        TableAfterPut(g, s0, fat, clst, val);
        fat := fat[clst := Trim(g.fsType, val)];
        InfoStays(s0);
        res := FrOk;
      }
    }

    /** put_fat with the end mark. */
    method PutEnd(clst: nat)
      requires Valid() && 2 <= clst < |fat|
      modifies this`wflag, this`winsect, this`store, this`fat, win, disk
      ensures Valid() && SameOutside(g, old(store), store) && InFat1(g, winsect)
      ensures fat == old(fat)[clst := EntryMask(g.fsType)]
    {
      TrimFacts(g.fsType, 0);
      var _ := PutFat(clst, 0xFFFF_FFFF);
    }

    /** put_fat with a cluster number, or with 0 for a free cluster. */
    method PutLink(clst: nat, val: nat)
      requires Valid() && 2 <= clst < |fat| && val < |fat|
      modifies this`wflag, this`winsect, this`store, this`fat, win, disk
      ensures Valid() && SameOutside(g, old(store), store) && InFat1(g, winsect)
      ensures fat == old(fat)[clst := val]
    {
      TrimFacts(g.fsType, val);
      var _ := PutFat(clst, val);
    }

    /** free_clst after `k` increments that stop at the number of clusters. */
    ghost function Raised(count: nat, k: nat): nat {
      if count >= g.nFatent - 2 then count else if count + k <= g.nFatent - 2 then count + k else g.nFatent - 2
    }

    /** What the FAT is when remove_chain starts to free clusters: the previous cluster ends its chain. */
    ghost function Ended(f: Fat, pclst: nat): Fat
      requires pclst == 0 || pclst < |f|
    {
      if pclst == 0 then f else f[pclst := EntryMask(g.fsType)]
    }

    method RemoveChain(clst: nat, pclst: nat) returns (res: FResult)
      requires Valid()
      modifies this`wflag, this`winsect, this`store, this`fat, this`lastClst, this`freeClst, this`fsiFlag, win, disk
      ensures Valid() && SameOutside(g, old(store), store)
      ensures lastClst == old(lastClst)
      ensures winsect == old(winsect) || InFat1(g, winsect)
      ensures !(2 <= clst < |old(fat)|) || (pclst != 0 && !(2 <= pclst < |old(fat)|)) ==>
        res == FrIntErr && fat == old(fat) && freeClst == old(freeClst)
      ensures 2 <= clst < |old(fat)| && (pclst == 0 || 2 <= pclst < |old(fat)|) ==>
        var u := Unlink(Ended(old(fat), pclst), clst);
        fat == u.fat && res == (if u.ok then FrOk else FrIntErr) && freeClst == Raised(old(freeClst), u.freed)
      ensures if freeClst == old(freeClst) then fsiFlag == old(fsiFlag) else fsiFlag % 2 == 1 && fsiFlag / 2 == old(fsiFlag) / 2
      ensures old(CountOk()) && (2 <= pclst < |old(fat)| ==> old(fat)[pclst] != 0) ==> CountOk()
    {
      if 2 <= clst < |fat| && (pclst == 0 || (2 <= pclst < |fat| && fat[pclst] != 0)) { RemovedCount(this, fat, clst, pclst, freeClst); }
      res := FrOk;
      if clst < 2 || clst >= g.nFatent {
        return FrIntErr;
      }
      if pclst != 0 {
        TrimFacts(g.fsType, 0);
        res := PutFat(pclst, 0xFFFF_FFFF);
        if res != FrOk { return; }
      }
      ghost var f1 := fat;
      res := FreeLinks(clst);
    }

    /** One turn of remove_chain: mark the cluster free and count it. */
    method FreeOne(clst: nat)
      requires Valid() && 2 <= clst < |fat|
      modifies this`wflag, this`winsect, this`store, this`fat, this`lastClst, this`freeClst, this`fsiFlag, win, disk
      ensures Valid() && SameOutside(g, old(store), store)
      ensures lastClst == old(lastClst)
      ensures InFat1(g, winsect)
      ensures fat == old(fat)[clst := 0] && freeClst == Raised(old(freeClst), 1)
      ensures if freeClst == old(freeClst) then fsiFlag == old(fsiFlag) else fsiFlag % 2 == 1 && fsiFlag / 2 == old(fsiFlag) / 2
    {
      PutLink(clst, 0);
      if freeClst < g.nFatent - 2 {
        assert OpenInfo(0);
        ghost var free, flag := freeClst, fsiFlag;
        freeClst := freeClst + 1;
        fsiFlag := Marked(fsiFlag);
        InfoMarked(free, lastClst, flag);
      }
    }

    /** The loop of remove_chain. */
    method FreeLinks(first: nat) returns (res: FResult)
      requires Valid() && 2 <= first < |fat|
      modifies this`wflag, this`winsect, this`store, this`fat, this`lastClst, this`freeClst, this`fsiFlag, win, disk
      ensures Valid() && SameOutside(g, old(store), store)
      ensures lastClst == old(lastClst)
      ensures winsect == old(winsect) || InFat1(g, winsect)
      ensures |old(fat)| == g.nFatent
      ensures var u := Unlink(old(fat), first);
        fat == u.fat && res == (if u.ok then FrOk else FrIntErr) && freeClst == Raised(old(freeClst), u.freed)
      ensures if freeClst == old(freeClst) then fsiFlag == old(fsiFlag) else fsiFlag % 2 == 1 && fsiFlag / 2 == old(fsiFlag) / 2
    {
      var clst := first;
      ghost var k, f0 := 0, fat;
      while true
        invariant Valid() && SameOutside(g, old(store), store) && lastClst == old(lastClst)
        invariant winsect == old(winsect) || InFat1(g, winsect)
        invariant 2 <= clst < |fat| == |f0|
        invariant freeClst == Raised(old(freeClst), k) && old(freeClst) <= freeClst
        invariant if freeClst == old(freeClst) then fsiFlag == old(fsiFlag) else fsiFlag % 2 == 1 && fsiFlag / 2 == old(fsiFlag) / 2
        invariant var u := Unlink(fat, clst); Unlink(f0, first) == Unlinked(u.ok, u.fat, k + u.freed)
        decreases Used(fat)
      {
        var nxt := GetFat(clst);
        if nxt == 0 { return FrOk; }
        if nxt == 1 { return FrIntErr; }
        if nxt == NONE { return FrDiskErr; }
        UsedDrops(fat, clst);
        FreeOne(clst);
        k := k + 1;
        clst := nxt;
        if clst >= g.nFatent { break; }
      }
      return FrOk;
    }

    /** fsi_flag with the lowest bit set: FSINFO is out of date. */
    function Marked(flag: Byte): (r: Byte)
      ensures r % 2 == 1 && r / 2 == flag / 2
    {
      if flag % 2 == 1 then flag else flag + 1
    }

    /** Where create_chain begins to search for clst. */
    ghost function StartOf(clst: nat, hint: nat): nat {
      if clst != 0 then clst else if hint == 0 || hint >= g.nFatent then 1 else hint
    }

    /** create_chain's choice: the next cluster if clst is stretched and it is free, else the first free one from the hint on. */
    ghost predicate Picked(f: Fat, clst: nat, start: nat, hint: nat, r: nat)
      requires |f| == g.nFatent > 2
    {
      var next := if start + 1 >= |f| then 2 else start + 1;
      if start == clst then
        if f[next] == 0 then r == next
        else FirstAfter(f, if 2 <= hint < |f| then hint else start, r)
      else FirstAfter(f, start, r)
    }

    /** The search of create_chain: a free cluster after scl, wrapping around once. */
    method FindFree(scl: nat) returns (ncl: nat)
      requires Valid() && 1 <= scl < g.nFatent
      modifies this`wflag, this`winsect, win, disk
      ensures Valid()
      ensures winsect == old(winsect) || InFat1(g, winsect)
      ensures ncl == 0 ==> !HasFree(fat)
      ensures ncl == 1 ==> HasBadLink(fat)
      ensures ncl >= 2 ==> ncl < |fat| && fat[ncl] == 0 && FirstAfter(fat, scl, ncl)
    {
      ncl := scl;
      ghost var wrapped := false;
      while true
        invariant Valid()
        invariant winsect == old(winsect) || InFat1(g, winsect)
        invariant !wrapped ==> scl <= ncl < |fat| && forall d {:trigger fat[d]} :: scl < d <= ncl ==> fat[d] != 0
        invariant wrapped ==> 2 <= ncl < scl && forall d {:trigger fat[d]} :: 2 <= d <= ncl || scl < d < |fat| ==> fat[d] != 0
        decreases !wrapped, |fat| - ncl
      {
        ncl := ncl + 1;
        if ncl >= g.nFatent {
          ncl := 2;
          wrapped := true;
          if ncl > scl { return 0; }
        }
        var cs := GetFat(ncl);
        if cs == 0 { return; }
        if cs == 1 { return 1; }
        if cs == NONE { return NONE; }
        if ncl == scl { return 0; }
      }
    }

    method CreateChain(clst: nat) returns (r: nat)
      requires Valid()
      modifies this`wflag, this`winsect, this`store, this`fat, this`lastClst, this`freeClst, this`fsiFlag, win, disk
      ensures Valid() && SameOutside(g, old(store), store)
      ensures winsect == old(winsect) || InFat1(g, winsect)
      ensures clst != 0 && !Linked(old(fat), clst) ==> r == 1
      ensures Linked(old(fat), clst) && old(fat)[clst] < |old(fat)| ==> r == old(fat)[clst] && fat == old(fat)
      ensures clst == 0 || (Linked(old(fat), clst) && old(fat)[clst] >= |old(fat)|) ==>
        && (r == 1 ==> HasBadLink(old(fat)))
        && (r == 0 ==> old(freeClst) == 0 || !HasFree(old(fat)))
        && (old(freeClst) == 0 || (!HasFree(old(fat)) && !HasBadLink(old(fat))) ==> r == 0)
        && (r >= 2 ==> Created(old(fat), fat, clst, r, EntryMask(g.fsType)) && lastClst == r && InFat1(g, winsect))
        && (r >= 2 ==> freeClst == if old(freeClst) <= g.nFatent - 2 then old(freeClst) - 1 else old(freeClst))
        && (r >= 2 ==> fsiFlag % 2 == 1 && fsiFlag / 2 == old(fsiFlag) / 2 && Picked(old(fat), clst, StartOf(clst, old(lastClst)), old(lastClst), r))
      ensures r < 2 ==> fat == old(fat)
      ensures fat == old(fat) ==> store == old(store) && lastClst == old(lastClst) && freeClst == old(freeClst) && fsiFlag == old(fsiFlag)
      ensures old(CountOk()) ==> CountOk()
      ensures r == 0 ==> !HasFree(old(fat)) || !old(CountOk())
    {
      var scl: nat;
      if clst == 0 {
        scl := lastClst;
        if scl == 0 || scl >= g.nFatent { scl := 1; }
      } else {
        var cs := GetFat(clst);
        if cs < 2 { return 1; }
        if cs == NONE { return NONE; }
        if cs < g.nFatent { return cs; }
        scl := clst;
      }
      if freeClst == 0 {
        NoneFree(fat, 2);
        return 0;
      }
      var ncl := PickCluster(clst, scl);
      if ncl < 2 { return ncl; }
      r := LinkCluster(clst, ncl);
    }

    /** create_chain: choose the cluster, the next one if that is free. */
    method PickCluster(clst: nat, start: nat) returns (ncl: nat)
      requires Valid() && 1 <= start < g.nFatent && clst < g.nFatent
      modifies this`wflag, this`winsect, win, disk
      ensures Valid()
      ensures winsect == old(winsect) || InFat1(g, winsect)
      ensures ncl == 0 ==> !HasFree(fat)
      ensures ncl == 1 ==> HasBadLink(fat)
      ensures ncl >= 2 ==> ncl < |fat| && fat[ncl] == 0 && Picked(fat, clst, start, lastClst, ncl)
    {
      var scl := start;
      ncl := 0;
      if scl == clst {
        ncl := scl + 1;
        if ncl >= g.nFatent { ncl := 2; }
        var cs := GetFat(ncl);
        if cs == 1 { return 1; }
        if cs == NONE { return NONE; }
        if cs != 0 {
          cs := lastClst;
          if 2 <= cs < g.nFatent { scl := cs; }
          ncl := 0;
        }
      }
      if ncl == 0 {
        ncl := FindFree(scl);
      }
    }

    /** create_chain: mark the new cluster as an end, link it and update the counters. */
    method LinkCluster(clst: nat, newc: nat) returns (r: nat)
      requires Valid() && 2 <= newc < |fat| && fat[newc] == 0 && freeClst != 0
      requires clst == 0 || (2 <= clst < |fat| && clst != newc)
      modifies this`wflag, this`winsect, this`store, this`fat, this`lastClst, this`freeClst, this`fsiFlag, win, disk
      ensures Valid() && SameOutside(g, old(store), store)
      ensures r == newc && Created(old(fat), fat, clst, r, EntryMask(g.fsType)) && lastClst == r && InFat1(g, winsect)
      ensures freeClst == if old(freeClst) <= g.nFatent - 2 then old(freeClst) - 1 else old(freeClst)
      ensures fsiFlag % 2 == 1 && fsiFlag / 2 == old(fsiFlag) / 2
      ensures old(CountOk()) && (clst == 0 || old(fat)[clst] != 0) ==> CountOk()
    {
      CreatedCount(fat, clst, newc, EntryMask(g.fsType));
      PutEnd(newc);
      if clst != 0 {
        PutLink(clst, newc);
      }
      assert OpenInfo(0);
      ghost var free, last, flag := freeClst, lastClst, fsiFlag;
      lastClst := newc;
      if freeClst <= g.nFatent - 2 { freeClst := freeClst - 1; }
      fsiFlag := Marked(fsiFlag);
      InfoMarked(free, last, flag);
      r := newc;
    }

    /** disk_read around the window: sectors the window does not stand for. */
    method ReadSectors(buff: array<Byte>, ofs: nat, sector: nat, count: nat)
      requires Valid() && buff != disk && buff != win
      requires FatEnd(g) <= sector && !(sector <= winsect < sector + count)
      requires 512 * (sector + count) <= |store| && ofs + 512 * count <= buff.Length
      modifies buff
      ensures Valid()
      ensures buff[..] == Patch(old(buff[..]), ofs, store[512 * sector..512 * (sector + count)])
    {
      assert WindowFacts() by { assert Unseal(0); }
      DiskRead(disk, buff, ofs, sector, count);
    }

    /** disk_write around the window: sectors outside the FATs that the window does not stand for. */
    method WriteSectors(buff: array<Byte>, ofs: nat, sector: nat, count: nat)
      requires Valid() && buff != disk && buff != win
      requires FatEnd(g) <= sector && !(sector <= winsect < sector + count)
      requires 512 * (sector + count) <= |store| && ofs + 512 * count <= buff.Length
      modifies this`store, disk
      ensures Valid()
      ensures |old(store)| == |store| && store == Patch(old(store), 512 * sector, buff[ofs..ofs + 512 * count])
    {
      assert WindowFacts() by { assert Unseal(0); }
      DiskWrite(disk, buff, ofs, sector, count);
      assert OpenInfo(0);
      ghost var data, s0 := buff[ofs..ofs + 512 * count], store;
      TableFrame(g, store, Patch(store, 512 * sector, data), fat);
      store := Patch(store, 512 * sector, data);
      InfoStays(s0);
    }

    /** Store bytes in the window, which stands for a sector outside the FATs, and mark it dirty. */
    method PokeBytes(o: nat, data: seq<Byte>)
      requires Valid() && winsect != NONE && FatEnd(g) <= winsect && o + |data| <= 512
      modifies this`wflag, this`store, win
      ensures Valid() && wflag
      ensures |old(store)| == |store| && store == Patch(old(store), 512 * winsect + o, data)
    {
      assert WindowFacts() by { assert Unseal(0); }
      assert OpenInfo(0);
      ghost var s0, s := store, Patch(store, 512 * winsect + o, data);
      TableFrame(g, store, s, fat);
      FillWindow(o, data);
      wflag := true;
      store := s;
      assert WindowFacts();
      InfoStays(s0);
    }

    /** mem_cpy into the window. */
    method FillWindow(o: nat, data: seq<Byte>)
      requires win.Length == 512 && o + |data| <= 512
      modifies win
      ensures forall i {:trigger win[i]} :: 0 <= i < 512 ==> win[i] == if o <= i < o + |data| then data[i - o] else old(win[i])
    {
      for j := 0 to |data|
        invariant forall i {:trigger win[i]} :: 0 <= i < 512 ==> win[i] == if o <= i < o + j then data[i - o] else old(win[i])
      {
        win[o + j] := data[j];
      }
    }

    /** dir_clear: fill a cluster with zeros; the window is its first sector. */
    method DirClear(clst: nat)
      requires Valid() && DataOk(g, |store|) && 2 <= clst < g.nFatent
      modifies this`wflag, this`winsect, this`store, win, disk
      ensures Valid() && !wflag && winsect == ClusterSect(g, clst)
      ensures |old(store)| == |store| && 512 * (ClusterSect(g, clst) + g.csize) <= |store|
      ensures store == Patch(old(store), 512 * ClusterSect(g, clst), Zeros(512 * g.csize))
    {
      Clst2SectIsFirst(g, clst);
      ClusterInside(g, clst);
      SyncWindow();
      CleanMedium();
      assert Mirrored(g, store) by { assert Unseal(0); }
      ClearSectors(Clst2Sect(g, clst));
    }

    /** The window takes the first sector of the cluster, and all its sectors become zero. */
    method ClearSectors(sect: nat)
      requires Valid() && DataOk(g, |store|) && !wflag && disk[..] == store && Mirrored(g, store)
      requires g.database <= sect && 512 * (sect + g.csize) <= |store|
      modifies this`winsect, this`store, win, disk
      ensures Valid() && winsect == sect && store == Patch(old(store), 512 * sect, Zeros(512 * g.csize))
    {
      ghost var s := Patch(store, 512 * sect, Zeros(512 * g.csize));
      assert OpenInfo(0);
      TableFrame(g, store, s, fat);
      HintsStay(g, store, s, freeClst, lastClst, fsiFlag);
      assert win.Length == 512 && win != disk && Fits(g, |store|) by { assert Unseal(0); }
      winsect := sect;
      FillWindow(0, Zeros(512));
      FillCluster(sect);
      store := s;
      assert WindowOk() by { WindowClear(sect); }
    }

    /** The clean window of a cleared sector. */
    lemma WindowClear(sect: nat)
      requires winsect == sect && !wflag && disk[..] == store && win.Length == 512 && win != disk && Fits(g, |store|) && Mirrored(g, store)
      requires 512 * sect + 512 <= |store| && !InFat2(g, sect) && |store| <= 512 * NONE
      requires forall i {:trigger win[i]} :: 0 <= i < 512 ==> win[i] == 0 && store[512 * sect + i] == 0
      ensures WindowOk()
    {
    }

    /** The loop of dir_clear. */
    method FillCluster(sect: nat)
      requires disk != win && win.Length == 512 && 512 * (sect + g.csize) <= disk.Length
      requires forall i {:trigger win[i]} :: 0 <= i < 512 ==> win[i] == 0
      modifies disk
      ensures disk[..] == Patch(old(disk[..]), 512 * sect, Zeros(512 * g.csize))
    {
      var n := 0;
      while n < g.csize
        invariant 0 <= n <= g.csize
        invariant forall a {:trigger disk[a]} :: 0 <= a < disk.Length ==> disk[a] == if 512 * sect <= a < 512 * (sect + n) then 0 else old(disk[a])
      {
        DiskWrite(disk, win, 0, sect + n, 1);
        n := n + 1;
      }
    }

    /** The entry whose bytes start at offset i of the window: the test the FAT16 and FAT32 scan makes. */
    method EntryIsZero(ghost e: nat, i: nat) returns (zero: bool)
      requires Valid() && g.fsType != Fat12 && e < g.nFatent
      requires i == EntryOffset(g.fsType, e) % 512 && winsect == g.fatbase + EntryOffset(g.fsType, e) / 512 && winsect != NONE
      ensures zero <==> fat[e] == 0
    {
      EntryInFat(g, e);
      assert fat[e] == Entry(g, store, e);
      if g.fsType == Fat32 { EntryPlace(e); }
      EntryInWindow(e, i);
      if g.fsType == Fat16 {
        LdWordSlice(win[..], i);
        zero := LdWord(win[..], i) == 0;
      } else {
        LdDwordSlice(win[..], i);
        zero := LdDword(win[..], i) % 0x1000_0000 == 0;
      }
    }

    /** f_getfree's scan of a FAT16 or FAT32 table: it counts every zero entry, the two reserved ones included. */
    method ScanEntries() returns (nfree: nat)
      requires Valid() && g.fsType != Fat12
      modifies this`wflag, this`winsect, win, disk
      ensures Valid() && nfree == FreeFrom(fat, 0)
    {
      var w := if g.fsType == Fat16 then 2 else 4;
      var clst, sect, i := g.nFatent, g.fatbase, 0;
      nfree := 0;
      ghost var e, m := 0, 0;
      while clst != 0
        invariant Valid() && 0 <= clst && clst + e == g.nFatent && nfree + FreeFrom(fat, e) == FreeFrom(fat, 0)
        invariant 0 <= m && sect == g.fatbase + m && ScanAt(w, e, i, m)
        invariant i != 0 ==> winsect == sect - 1 && winsect != NONE
      {
        ScanPlace(w, e, i, m);
        if i == 0 {
          SeekScan(sect, e);
          sect := sect + 1;
          m := m + 1;
        }
        var zero := EntryIsZero(e, i);
        if zero { nfree := nfree + 1; }
        i := (i + w) % 512;
        e := e + 1;
        clst := clst - 1;
      }
    }

    /** Entry e of width w is at offset i of a sector, and m sectors have been visited before that offset. */
    ghost predicate ScanAt(w: nat, e: nat, i: int, m: nat) {
      && 0 <= i < 512 && (if w == 2 then i % 2 == 0 else i % 4 == 0)
      && EntryOffset(g.fsType, e) == if i == 0 then 512 * m else 512 * m - 512 + i
    }

    /** The entry's sector and offset, and the same for the next entry. */
    lemma ScanPlace(w: nat, e: nat, i: nat, m: nat)
      requires (g.fsType == Fat16 && w == 2) || (g.fsType == Fat32 && w == 4)
      requires ScanAt(w, e, i, m)
      ensures i == EntryOffset(g.fsType, e) % 512
      ensures EntryOffset(g.fsType, e) / 512 == if i == 0 then m else m - 1
      ensures ScanAt(w, e + 1, (i + w) % 512, if i == 0 then m + 1 else m)
    {
      var x := EntryOffset(g.fsType, e);
      var q := if i == 0 then m else m - 1;
      DivModUnique(x, 512, q, i);
      assert EntryOffset(g.fsType, e + 1) == x + w;
      assert i + w <= 512;
      if i + w == 512 { assert (i + w) % 512 == 0; } else { assert (i + w) % 512 == i + w; }
    }

    method SeekScan(sect: nat, ghost e: nat)
      requires Valid() && g.fsType != Fat12 && e < g.nFatent && sect == g.fatbase + EntryOffset(g.fsType, e) / 512
      modifies this`wflag, this`winsect, win, disk
      ensures Valid() && winsect == sect && winsect != NONE
    {
      EntryInFat(g, e);
      MoveWindow(sect);
    }

    /** f_getfree's scan of a FAT12 table. */
    method ScanFat12() returns (res: FResult, nfree: nat)
      requires Valid()
      modifies this`wflag, this`winsect, win, disk
      ensures Valid()
      ensures res == if HasBadLink(fat) then FrIntErr else FrOk
      ensures res == FrOk ==> nfree == FreeCount(fat)
      ensures nfree <= g.nFatent
    {
      nfree := 0;
      var clst := 2;
      while clst < g.nFatent
        invariant Valid() && 2 <= clst <= |fat| && nfree <= clst && nfree + FreeFrom(fat, clst) == FreeFrom(fat, 2)
        invariant forall d {:trigger fat[d]} :: 2 <= d < clst ==> fat[d] != 1
      {
        var stat := GetFat(clst);
        if stat == 1 { return FrIntErr, nfree; }
        if stat == 0 { nfree := nfree + 1; }
        clst := clst + 1;
      }
      res := FrOk;
    }

    method GetFree() returns (res: FResult, nclst: nat)
      requires Valid()
      modifies this`wflag, this`winsect, this`freeClst, this`fsiFlag, win, disk
      ensures Valid()
      ensures old(freeClst) <= g.nFatent - 2 ==> res == FrOk && nclst == old(freeClst) == freeClst
      ensures old(freeClst) > g.nFatent - 2 && g.fsType == Fat12 ==> res == if HasBadLink(fat) then FrIntErr else FrOk
      ensures old(freeClst) > g.nFatent - 2 && g.fsType == Fat12 && res == FrOk ==> nclst == freeClst == FreeCount(fat)
      ensures old(freeClst) > g.nFatent - 2 && g.fsType != Fat12 ==>
        res == FrOk && nclst == freeClst && (nclst == FreeCount(fat) <==> fat[0] != 0 && fat[1] != 0)
      ensures old(freeClst) > g.nFatent - 2 ==> freeClst == nclst && fsiFlag % 2 == 1 && fsiFlag / 2 == old(fsiFlag) / 2
      ensures old(freeClst) <= g.nFatent - 2 ==> fsiFlag == old(fsiFlag)
      ensures old(CountOk()) && (if g.fsType == Fat12 then !HasBadLink(fat) else fat[0] != 0 && fat[1] != 0) ==> CountOk()
    {
      res := FrOk;
      if freeClst <= g.nFatent - 2 { return FrOk, freeClst; }
      FreeFromBound(fat, 0);
      FreeFromBound(fat, 2);
      if g.fsType == Fat12 {
        res, nclst := ScanFat12();
      } else {
        nclst := ScanEntries();
        assert FreeFrom(fat, 0) == Blank(fat[0]) + FreeFrom(fat, 1) == Blank(fat[0]) + Blank(fat[1]) + FreeFrom(fat, 2);
      }
      assert OpenInfo(0);
      ghost var free, flag := freeClst, fsiFlag;
      freeClst := nclst;
      fsiFlag := Marked(fsiFlag);
      InfoMarked(free, lastClst, flag);
    }
  }

  /** create_chain takes one free cluster. */
  lemma CreatedCount(fat: Fat, clst: nat, r: nat, eoc: nat)
    requires 2 <= r < |fat| && fat[r] == 0 && eoc != 0 && (clst == 0 || (clst < |fat| && clst != r))
    requires clst == 0 || clst >= 2
    ensures var fat1 := fat[r := eoc];
      && FreeCount(fat1) == FreeCount(fat) - 1
      && (clst != 0 && fat[clst] != 0 ==> FreeCount(fat1[clst := r]) == FreeCount(fat) - 1)
  {
    FreeFromUpdate(fat, 2, r, eoc);
    if clst != 0 { FreeFromUpdate(fat[r := eoc], 2, clst, r); }
  }

  /** A count that is exact or unknown stays so through remove_chain. */
  lemma RemovedCount(fs: Fatfs, fat: Fat, clst: nat, pclst: nat, count: nat)
    requires |fat| == fs.g.nFatent && 2 <= clst < |fat|
    requires pclst == 0 || (2 <= pclst < |fat| && fat[pclst] != 0)
    ensures var u := Unlink(fs.Ended(fat, pclst), clst);
      && (count == FreeCount(fat) ==> fs.Raised(count, u.freed) == FreeCount(u.fat))
      && (count > fs.g.nFatent - 2 ==> fs.Raised(count, u.freed) == count)
  {
    if count == FreeCount(fat) { RemovedCountExact(fs, fat, clst, pclst, count); }
  }

  /** A count that was exact before remove_chain is exact after it. */
  lemma RemovedCountExact(fs: Fatfs, fat: Fat, clst: nat, pclst: nat, count: nat)
    requires |fat| == fs.g.nFatent && 2 <= clst < |fat| && count == FreeCount(fat)
    requires pclst == 0 || (2 <= pclst < |fat| && fat[pclst] != 0)
    ensures var u := Unlink(fs.Ended(fat, pclst), clst); fs.Raised(count, u.freed) == FreeCount(u.fat)
  {
    var f1 := fs.Ended(fat, pclst);
    if pclst != 0 { FreeFromUpdate(fat, 2, pclst, EntryMask(fs.g.fsType)); }
    UnlinkCounts(f1, clst);
    FreeFromBound(Unlink(f1, clst).fat, 2);
  }

  /** A table with zero reserved entries: the FAT16 and FAT32 scan counts all n entries, but two clusters less are free. */
  lemma ReservedZeros(n: nat)
    requires n >= 2
    ensures var fat: Fat := seq(n, _ => 0); FreeFrom(fat, 0) == n && FreeCount(fat) == n - 2
  {
    AllZero(n, 0);
    AllZero(n, 2);
  }

  lemma {:induction false} AllZero(n: nat, c: nat)
    requires c <= n
    ensures FreeFrom(seq(n, _ => 0), c) == n - c
    decreases n - c
  {
    if c < n { AllZero(n, c + 1); }
  }
}
