/** Directories: a table of 32-byte entries in the static root area or in a cluster chain. */
module Directory {
  import opened Machine
  import opened Geometry
  import opened Chains
  import opened FileView
  import opened DataArea
  import opened Volume
  import opened DirTable
  import File

  /** Proofs that need the sealed part of a directory's invariant mention OpenTable. */
  ghost predicate OpenTable(k: int) { true }
  ghost predicate OpenStretch(k: int) { true }
  ghost predicate OpenAt(k: int) { true }

  /** No directory is longer than MAX_DIR bytes. */
  const MAX_DIR: nat := 0x20_0000

  /** The number of entries a directory of n sectors has. */
  function Entries(n: nat): nat { if 16 * n < 65536 then 16 * n else 65536 }

  /** Where entry k is on the disk. */
  function SlotAddr(secs: seq<nat>, k: nat): nat
    requires k / 16 < |secs|
  {
    512 * secs[k / 16] + 32 * (k % 16)
  }

  /** The entries of a directory. */
  ghost function TableOf(secs: seq<nat>, store: seq<Byte>): (es: seq<Slot>)
    requires SecsOk(secs, |store|)
    ensures |es| == Entries(|secs|) && SlotsOk(es)
    ensures forall k {:trigger es[k]} :: 0 <= k < |es| ==> es[k] == store[SlotAddr(secs, k)..SlotAddr(secs, k) + 32]
  {
    seq(Entries(|secs|), k requires 0 <= k < Entries(|secs|) => store[SlotAddr(secs, k)..SlotAddr(secs, k) + 32])
  }

  ghost predicate AboveFats(g: Geo, secs: seq<nat>) { forall k {:trigger secs[k]} :: 0 <= k < |secs| ==> FatEnd(g) <= secs[k] }

  /** What happens in the FATs does not change a directory. */
  lemma TableFrame(g: Geo, secs: seq<nat>, s: seq<Byte>, r: seq<Byte>)
    requires SecsOk(secs, |s|) && SameOutside(g, s, r) && AboveFats(g, secs)
    ensures TableOf(secs, r) == TableOf(secs, s)
  {
    var es, es' := TableOf(secs, s), TableOf(secs, r);
    forall k | 0 <= k < |es| ensures es'[k] == es[k] {
      var a := SlotAddr(secs, k);
      assert FatEnd(g) <= secs[k / 16];
      assert r[a..a + 32] == s[a..a + 32];
    }
  }

  /** Replacing the bytes of an entry replaces that entry and no other. */
  lemma TablePatched(secs: seq<nat>, s: seq<Byte>, k: nat, o: nat, data: seq<Byte>)
    requires SecsOk(secs, |s|) && k < Entries(|secs|) && o + |data| <= 32
    ensures var r := Patch(s, SlotAddr(secs, k) + o, data);
      TableOf(secs, r) == TableOf(secs, s)[k := Patch(TableOf(secs, s)[k], o, data)]
  {
    var at := SlotAddr(secs, k);
    var r := Patch(s, at + o, data);
    var es, es' := TableOf(secs, s), TableOf(secs, r);
    forall j | 0 <= j < |es| ensures es'[j] == es[k := Patch(es[k], o, data)][j] {
      var a := SlotAddr(secs, j);
      if j == k {
        assert r[a..a + 32] == Patch(s[a..a + 32], o, data);
      } else {
        SlotsApart(secs, |s|, j, k);
        PatchAway(s, at + o, data, a, 32);
      }
    }
  }

  lemma SlotsApart(secs: seq<nat>, size: nat, j: nat, k: nat)
    requires SecsOk(secs, size) && j != k && j / 16 < |secs| && k / 16 < |secs|
    ensures SlotAddr(secs, j) + 32 <= SlotAddr(secs, k) || SlotAddr(secs, k) + 32 <= SlotAddr(secs, j)
  {
    if j / 16 == k / 16 {
      assert j % 16 != k % 16;
    } else {
      assert secs[j / 16] != secs[k / 16];
    }
  }

  /** A cleared cluster adds unused entries. */
  lemma TableStretched(secs: seq<nat>, s: seq<Byte>, sect: nat, n: nat)
    requires SecsOk(secs + Run(sect, n), |s|) && 16 * |secs| <= 65536 && 512 * (sect + n) <= |s|
    ensures SecsOk(secs, |s|)
    ensures Lengthened(TableOf(secs, s), TableOf(secs + Run(sect, n), Patch(s, 512 * sect, Zeros(512 * n))))
  {
    var secs', r := secs + Run(sect, n), Patch(s, 512 * sect, Zeros(512 * n));
    assert forall j {:trigger secs[j]} :: 0 <= j < |secs| ==> secs[j] == secs'[j];
    var es, es' := TableOf(secs, s), TableOf(secs', r);
    forall j {:trigger es'[j]} | 0 <= j < |es'| ensures if j < |es| then es'[j] == es[j] else es'[j] == Zeros(32) {
      if j < |es| { SlotKept(secs, s, sect, n, j); } else { SlotCleared(secs, s, sect, n, j); }
    }
  }

  lemma SlotKept(secs: seq<nat>, s: seq<Byte>, sect: nat, n: nat, j: nat)
    requires SecsOk(secs + Run(sect, n), |s|) && 512 * (sect + n) <= |s| && j / 16 < |secs|
    ensures var secs', r := secs + Run(sect, n), Patch(s, 512 * sect, Zeros(512 * n));
      var a := SlotAddr(secs, j); a == SlotAddr(secs', j) && a + 32 <= |s| && r[a..a + 32] == s[a..a + 32]
  {
    var secs', i := secs + Run(sect, n), j / 16;
    assert secs'[i] == secs[i];
    if sect <= secs'[i] < sect + n { RunIsOwn(secs', |s|, |secs|, sect, n, i); }
    PatchAway(s, 512 * sect, Zeros(512 * n), SlotAddr(secs, j), 32);
  }

  lemma SlotCleared(secs: seq<nat>, s: seq<Byte>, sect: nat, n: nat, j: nat)
    requires SecsOk(secs + Run(sect, n), |s|) && 512 * (sect + n) <= |s| && |secs| <= j / 16 < |secs| + n
    ensures var secs', r := secs + Run(sect, n), Patch(s, 512 * sect, Zeros(512 * n));
      var a := SlotAddr(secs', j); a + 32 <= |s| && r[a..a + 32] == Zeros(32)
  {
    var secs' := secs + Run(sect, n);
    var a := SlotAddr(secs', j);
    assert secs'[j / 16] == sect + (j / 16 - |secs|);
    PatchWithin(s, 512 * sect, Zeros(512 * n), a, 32);
    assert Zeros(512 * n)[a - 512 * sect..a - 512 * sect + 32] == Zeros(32);
  }

  /** The table may have got unused entries at its end; nothing else outside the FATs changed. */
  ghost predicate TableGrown(g: Geo, secs: seq<nat>, s: seq<Byte>, secs': seq<nat>, r: seq<Byte>) {
    && SecsOk(secs, |s|) && SecsOk(secs', |r|) && File.Confined(g, secs', s, r)
    && Lengthened(TableOf(secs, s), TableOf(secs', r))
  }

  lemma InRun(secs: seq<nat>, sect: nat, n: nat, x: nat)
    requires sect <= x < sect + n
    ensures x in secs + Run(sect, n)
  {
    assert (secs + Run(sect, n))[|secs| + (x - sect)] == x;
  }

  /** The volume after create_chain changed the FATs from s to r and dir_clear wrote a cluster. */
  lemma ClearedCluster(g: Geo, secs: seq<nat>, s: seq<Byte>, r: seq<Byte>, sect: nat)
    requires SecsOk(secs, |s|) && SameOutside(g, s, r) && AboveFats(g, secs) && DataOk(g, |s|) && g.database <= sect
    requires SecsOk(secs + Run(sect, g.csize), |s|) && 16 * |secs| < 65536 && 512 * (sect + g.csize) <= |s|
    ensures TableGrown(g, secs, s, secs + Run(sect, g.csize), Patch(r, 512 * sect, Zeros(512 * g.csize)))
    ensures AboveFats(g, secs + Run(sect, g.csize))
  {
    TableFrame(g, secs, s, r);
    TableStretched(secs, r, sect, g.csize);
    var secs', t := secs + Run(sect, g.csize), Patch(r, 512 * sect, Zeros(512 * g.csize));
    forall a {:trigger t[a]} | 0 <= a < |s| && OutsideFats(g, a) && a / 512 !in secs' ensures t[a] == s[a] {
      if sect <= a / 512 < sect + g.csize { InRun(secs, sect, g.csize, a / 512); }
    }
  }

  ghost predicate FullTo(es: seq<Slot>, k: nat)
    requires SlotsOk(es)
  {
    forall j {:trigger es[j]} :: 0 <= j < k && j < |es| ==> !IsFree(es[j])
  }

  /** Cluster 0 stands for the root directory, which is a chain on FAT32 only. */
  function Start(g: Geo, sclust: nat): nat { if sclust == 0 && g.fsType == Fat32 then g.dirbase else sclust }

  /** The table with first cluster sclust has the chain x and the sectors secs. */
  ghost predicate TableHeld(g: Geo, fat: Fat, sclust: nat, x: Chain, others: set<Chain>, secs: seq<nat>) {
    if Start(g, sclust) == 0 then
      x == [] && RootOk(g) && WellFormed(fat, others) && secs == Run(g.dirbase, g.nRootdir / 16)
    else
      x != [] && WellFormed(fat, others + {x}) && x !in others && x[0] == Start(g, sclust) && Clusters(g, x) && secs == Sectors(g, x)
  }

  /** Byte b of entry k, by the layout: in the static area, or in a cluster of the chain that begins with the first cluster. */
  lemma EntryByte(g: Geo, fat: Fat, sclust: nat, x: Chain, others: set<Chain>, secs: seq<nat>, s: seq<Byte>, k: nat, b: nat, p: nat, r: nat)
    requires TableHeld(g, fat, sclust, x, others, secs) && SecsOk(secs, |s|) && k < |TableOf(secs, s)| && b < 32
    requires g.csize > 0 && p == k / 16 / g.csize && r == k / 16 % g.csize
    ensures x != [] ==> p < |x| && x[0] == if sclust == 0 && g.fsType == Fat32 then g.dirbase else sclust
    ensures var a :=
        if x == [] then 512 * g.dirbase + 32 * k + b
        else 512 * (Clst2Sect(g, x[p]) + r) + 32 * (k % 16) + b;
      a < |s| && TableOf(secs, s)[k][b] == s[a]
  {
    var e := TableOf(secs, s)[k];
    assert k / 16 < |secs|;
    assert e[b] == s[SlotAddr(secs, k) + b];
    if x != [] {
      assert 32 * k / 512 == k / 16;
      ByteOfChain(g, x, 32 * k, p, r);
      Clst2SectIsFirst(g, x[p]);
    }
  }

  lemma HeldFacts(g: Geo, fat: Fat, sclust: nat, x: Chain, others: set<Chain>, secs: seq<nat>, size: nat)
    requires TableHeld(g, fat, sclust, x, others, secs) && |fat| == g.nFatent && DataOk(g, size)
    ensures SecsOk(secs, size) && AboveFats(g, secs) && |secs| > 0
  {
    if Start(g, sclust) != 0 {
      File.OpenedOk(g, fat, others + {x}, x, size);
      TimesMonotone(g.csize, 1, |x|);
      forall k {:trigger secs[k]} | 0 <= k < |secs| ensures FatEnd(g) <= secs[k] { var p := SectorsFrom(g, x, k); }
    }
  }

  /** c is the cluster of sector k of the table, 0 in the static root directory. */
  ghost predicate Place(g: Geo, fixed: bool, x: Chain, p: nat, c: nat, k: nat) {
    if fixed then c == 0 else c != 0 && AtCluster(g, x, p, k) && c == x[p]
  }

  /** A place is determined by the sector. */
  lemma PlaceIsUnique(g: Geo, fixed: bool, x: Chain, p: nat, c: nat, p': nat, c': nat, k: nat)
    requires Place(g, fixed, x, p, c, k) && Place(g, fixed, x, p', c', k)
    ensures c == c'
  {
    if !fixed {
      if p < p' { TimesStrict(g.csize, p, p'); }
      if p' < p { TimesStrict(g.csize, p', p); }
    }
  }

  lemma PatchIsConfined(g: Geo, secs: seq<nat>, s: seq<Byte>, k: nat, data: seq<Byte>)
    requires SecsOk(secs, |s|) && k / 16 < |secs| && |data| <= 32
    ensures File.Confined(g, secs, s, Patch(s, SlotAddr(secs, k), data))
  {
    assert secs[k / 16] in secs;
  }

  /** mem_set and mem_cpy of dir_register make the new entry. */
  lemma SlotStored(es: seq<Slot>, es': seq<Slot>, n: Name, k: nat)
    requires SlotsOk(es) && k < |es| && |n| == 11
    requires es' == es[k := Patch(es[k], 0, Zeros(32))][k := Patch(Patch(es[k], 0, Zeros(32)), 0, n)]
    ensures es' == es[k := NewSlot(n)]
  {
    assert Patch(Patch(es[k], 0, Zeros(32)), 0, n) == NewSlot(n);
  }

  /** dir_alloc has led from pre to mid, and entry k is the free one it found. */
  lemma NameStored(pre: State, mid: State, n: Name, k: nat)
    requires Lengthened(pre.table, mid.table) && |n| == 11 && FirstFree(mid.table, k) && k <= |pre.table|
    requires if k >= |pre.table| then pre.chain <= mid.chain && |mid.chain| == |pre.chain| + 1 && mid.free == CountLess(pre) else mid == pre
    ensures forall post: State {:trigger Registered(pre, post, n, k)} ::
      post.table == mid.table[k := NewSlot(n)] && post.chain == mid.chain && post.fat == mid.fat && post.free == mid.free ==> Registered(pre, post, n, k)
  {
    if k >= |pre.table| {
      assert forall j {:trigger pre.table[j]} :: 0 <= j < |pre.table| ==> pre.table[j] == mid.table[j];
      assert mid.table[k := NewSlot(n)] == pre.table + [NewSlot(n)] + ZeroSlots(|mid.table| - k - 1);
    }
  }

  /** The map after a table got unused entries and entry k the name n. */
  lemma NameAdded(es: seq<Slot>, es': seq<Slot>, n: Name, k: nat)
    requires InOrder(es) && Lengthened(es, es') && NameOk(n) && n !in Meaning(es) && FirstFree(es', k)
    ensures var t := es'[k := NewSlot(n)]; InOrder(t) && Meaning(t) == Meaning(es)[n := NewSlot(n)]
  {
    StretchKeeps(es, es');
    StretchMeaning(es, es');
    RegisterMeaning(es', n, k);
  }

  /** An entry's offset, its number and its sector. */
  lemma OffsetFacts(ofs: nat, n: nat)
    requires ofs % 32 == 0
    ensures ofs / 32 / 16 == ofs / 512 && ofs % 512 == 32 * (ofs / 32 % 16) && (ofs / 32 < 16 * n <==> ofs / 512 < n)
  {
  }

  lemma NextOffset(k: nat, n: nat)
    requires k / 16 < n
    ensures (32 * k + 32) / 32 == k + 1
    ensures if (32 * k + 32) % 512 == 0 then (k + 1) / 16 == k / 16 + 1 == (32 * k + 32) / 512 && 16 * (k / 16 + 1) == k + 1
      else (k + 1) / 16 == k / 16 && k + 1 < 16 * n
  {
  }

  /** What decides a directory and its room to grow: entries, chain, sectors, disk, FAT and free count. */
  datatype State = State(table: seq<Slot>, chain: Chain, secs: seq<nat>, store: seq<Byte>, fat: Fat, free: nat)

  /** The table ends at z, with a zero byte or because it has no more entries, and no entry before it is a file with the name. */
  ghost predicate NoneBefore(es: seq<Slot>, n: Name, z: nat)
    requires SlotsOk(es)
  {
    && z <= |es| && (z < |es| ==> es[z][0] == 0)
    && forall j {:trigger es[j]} :: 0 <= j < z ==> es[j][0] != 0 && !(BitAnd(es[j][11], 0x08) == 0 && es[j][..11] == n)
  }

  /** What a lookup finds, by the bytes of the entries. */
  lemma SearchMeans(es: seq<Slot>, n: Name)
    requires SlotsOk(es) && |n| == 11
    ensures match Lookup(es, n, 0)
      case Some(k) =>
        && k < |es| && BitAnd(es[k][11], 0x08) == 0 && es[k][..11] == n
        && forall j {:trigger es[j]} :: 0 <= j < k ==> es[j][0] != 0 && !(BitAnd(es[j][11], 0x08) == 0 && es[j][..11] == n)
      case None => exists z: nat :: NoneBefore(es, n, z)
  {
    LookupMeans(es, n, 0);
    forall j {:trigger es[j]} | 0 <= j < |es| ensures BitAnd(es[j][11], 0x08) == 0 <==> es[j][11] / 8 % 2 == 0 { LabelBit(es[j][11]); }
    if Lookup(es, n, 0) == None {
      var z: nat :| EndsAt(es, n, 0, z);
      assert NoneBefore(es, n, z);
    }
  }

  /** From pre to post entry k got the name n: the first free entry, or the first of a cleared cluster behind a full table. */
  ghost predicate Registered(pre: State, post: State, n: Name, k: nat) {
    && SlotsOk(pre.table) && |n| == 11 && k < |post.table|
    && if k < |pre.table| then
         FirstFree(pre.table, k) && post.table == pre.table[k := NewSlot(n)] && post.chain == pre.chain && post.fat == pre.fat && post.free == pre.free
       else
         && k == |pre.table| && FullTo(pre.table, k) && pre.chain <= post.chain && |post.chain| == |pre.chain| + 1 && post.free == CountLess(pre)
         && post.table == pre.table + [NewSlot(n)] + ZeroSlots(|post.table| - k - 1)
  }

  /** The count after one cluster was taken: a known one goes down by one. */
  ghost function CountLess(pre: State): int { if pre.free <= |pre.fat| - 2 then pre.free - 1 else pre.free }

  /** Unused entries. */
  function ZeroSlots(n: nat): seq<Slot> { seq(n, _ => Zeros(32)) }

  class Dir {
    const fs: Fatfs
    const sclust: Word32
    var fn: Name
    var dptr: Word32
    var clust: Word32
    var sect: Word32

    /** The table's entries, chain and sectors, the position of clust in the chain, and all other chains. */
    ghost var table: seq<Slot>
    ghost var chain: Chain
    ghost var secs: seq<nat>
    ghost var ix: nat
    ghost var others: set<Chain>
    /** The volume's free count was exact or unknown when the directory was opened. */
    ghost const exact: bool

    /** The volume is consistent and its directory sectors hold the table. */
    ghost predicate Held()
      reads this`table, this`chain, this`secs, this`others, fs`winsect, fs`wflag, fs`store, fs`fat, fs`freeClst, fs`lastClst, fs`fsiFlag, fs.win, fs.disk
    {
      forall k {:trigger OpenTable(k)} :: OpenTable(k) ==>
        && fs.Valid() && DataOk(fs.g, |fs.store|) && (exact ==> fs.CountOk())
        && TableHeld(fs.g, fs.fat, sclust, chain, others, secs)
        && SecsOk(secs, |fs.store|) && AboveFats(fs.g, secs)
        && table == TableOf(secs, fs.store)
    }

    ghost predicate Valid()
      reads this`table, this`chain, this`secs, this`others, this`fn, fs`winsect, fs`wflag, fs`store, fs`fat, fs`freeClst, fs`lastClst, fs`fsiFlag, fs.win, fs.disk
    {
      Held() && |secs| > 0 && |table| == Entries(|secs|) && SlotsOk(table) && |fn| == 11
    }

    /** No cluster is free; if the free count could not be trusted at the start, the count may only say so. */
    ghost predicate NoRoom()
      reads fs`fat, fs`freeClst
    {
      !HasFree(fs.fat) || (!exact && fs.freeClst == 0)
    }

    /** Every entry is used and the table cannot grow: static, at its maximum, or on a volume without room. */
    ghost predicate Full()
      requires SlotsOk(table)
      reads this`table, fs`fat, fs`freeClst
    {
      FullTo(table, |table|) && (Static() || |table| == 65536 || NoRoom())
    }

    ghost predicate Static() { Start(fs.g, sclust) == 0 }

    /** The object points at entry k: its offset, cluster and sector. */
    ghost predicate At(k: nat)
      reads this`dptr, this`clust, this`sect, this`table, this`chain, this`secs, this`ix
    {
      && k < |table| && sect != 0
      && forall t {:trigger OpenAt(t)} :: OpenAt(t) ==>
           && k / 16 < |secs| && dptr == 32 * k && sect == secs[k / 16]
           && Place(fs.g, Static(), chain, ix, clust, k / 16)
    }

    /** A directory object for the table of a chain, or for the static root. */
    constructor (fs: Fatfs, sclust: Word32, fn: Name, ghost chain: Chain, ghost others: set<Chain>)
      requires fs.Valid() && DataOk(fs.g, |fs.store|) && |fn| == 11
      requires Start(fs.g, sclust) == 0 ==> chain == [] && RootOk(fs.g) && WellFormed(fs.fat, others)
      requires Start(fs.g, sclust) != 0 ==> chain != [] && WellFormed(fs.fat, others + {chain}) && chain !in others && chain[0] == Start(fs.g, sclust)
      ensures Valid() && this.fs == fs && this.sclust == sclust && this.fn == fn && this.chain == chain && this.others == others && exact == fs.CountOk()
    {
      this.fs, this.sclust, this.fn := fs, sclust, fn;
      dptr, clust, sect := 0, 0, 0;
      this.chain, this.others, ix, exact := chain, others, 0, fs.CountOk();
      new;
      if Start(fs.g, sclust) == 0 {
        secs := Run(fs.g.dirbase, fs.g.nRootdir / 16);
      } else {
        assert IsChain(fs.fat, chain);
        secs := Sectors(fs.g, chain);
      }
      HeldFacts(fs.g, fs.fat, sclust, chain, others, secs, |fs.store|);
      table := TableOf(secs, fs.store);
    }

    /** dir_sdi: point at the entry with offset ofs. */
    method DirSdi(ofs: Word32) returns (res: FResult)
      requires Valid()
      modifies this`dptr, this`clust, this`sect, this`ix, fs`wflag, fs`winsect, fs.win, fs.disk
      ensures Valid()
      ensures res == if ofs % 32 == 0 && ofs / 32 < |table| then FrOk else FrIntErr
      ensures res == FrOk ==> At(ofs / 32)
    {
      if ofs >= MAX_DIR || ofs % 32 != 0 { return FrIntErr; }
      OffsetFacts(ofs, |secs|);
      dptr := ofs;
      var clst := sclust;
      if clst == 0 && fs.g.fsType == Fat32 { clst := RootCluster(); }
      if clst == 0 {
        res := SetStatic(ofs);
      } else {
        res := SetChained(clst, ofs);
      }
    }

    /** dir_sdi in the static root directory. */
    method SetStatic(ofs: nat) returns (res: FResult)
      requires Valid() && Static()
      modifies this`clust, this`sect
      ensures res == if ofs / 512 < |secs| then FrOk else FrIntErr
      ensures res == FrOk ==> sect == secs[ofs / 512] && sect != 0 && clust == 0
    {
      StaticSectors();
      if ofs / 32 >= fs.g.nRootdir { return FrIntErr; }
      assert secs[ofs / 512] == fs.g.dirbase + ofs / 512 && secs[0] == fs.g.dirbase;
      sect := fs.g.dirbase;
      clust := 0;
      if sect == 0 { return FrIntErr; }
      sect := sect + ofs / 512;
      return FrOk;
    }

    /** dir_sdi in a chain. */
    method SetChained(start: Word32, ofs: nat) returns (res: FResult)
      requires Valid() && !Static() && start == Start(fs.g, sclust)
      modifies this`clust, this`sect, this`ix, fs`wflag, fs`winsect, fs.win, fs.disk
      ensures Valid()
      ensures res == if ofs / 512 < |secs| then FrOk else FrIntErr
      ensures res == FrOk ==> sect == secs[ofs / 512] && sect != 0 && Place(fs.g, false, chain, ix, clust, ofs / 512)
    {
      var found, clst, rest := WalkTable(start, ofs);
      res := FrIntErr;
      if found {
        var s := SectorIn(clst, ofs, rest);
        SetPlace(clst, s);
        res := FrOk;
      }
    }

    method SetPlace(clst: Word32, s: Word32)
      modifies this`clust, this`sect
      ensures clust == clst && sect == s
    {
      clust := clst;
      sect := s;
    }

    method RootCluster() returns (c: Word32)
      requires Valid() && sclust == 0 && fs.g.fsType == Fat32
      ensures c == Start(fs.g, sclust)
    {
      assert OpenTable(0);
      c := fs.g.dirbase;
    }

    lemma StaticSectors()
      requires Valid() && Static()
      ensures 16 * |secs| == fs.g.nRootdir
      ensures forall k {:trigger secs[k]} :: 0 <= k < |secs| ==> secs[k] == fs.g.dirbase + k && 0 < secs[k] < NONE
    {
      assert OpenTable(0);
    }

    /** The loop of dir_sdi: follow the chain to the cluster that holds offset ofs. */
    method WalkTable(start: Word32, ofs: nat) returns (found: bool, clst: Word32, rest: nat)
      requires Valid() && !Static() && start == Start(fs.g, sclust)
      modifies this`ix, fs`wflag, fs`winsect, fs.win, fs.disk
      ensures Valid()
      ensures found <==> ofs / 512 < |secs|
      ensures found ==> Place(fs.g, false, chain, ix, clst, ofs / 512) && ofs == 512 * Times(fs.g.csize, ix) + rest
    {
      clst, rest := start, ofs;
      ix := 0;
      FirstOfTable();
      var csz := fs.g.csize * 512;
      while rest >= csz
        invariant Valid() && ix < |chain| && clst == chain[ix] && ofs == 512 * Times(fs.g.csize, ix) + rest
        decreases rest
      {
        LastSectors(ix);
        clst := NextInTable(clst, ix);
        if clst == NONE { return false, clst, rest; }
        if clst < 2 || clst >= fs.g.nFatent { return false, clst, rest; }
        rest := rest - csz;
        ix := ix + 1;
      }
      LastSectors(ix);
      found := true;
    }

    lemma FirstOfTable()
      requires Valid() && !Static()
      ensures chain != [] && chain[0] == Start(fs.g, sclust) && 1 <= fs.g.csize <= 128
    {
      assert OpenTable(0);
    }

    lemma LastSectors(p: nat)
      requires Valid() && !Static() && p < |chain|
      ensures 2 <= chain[p] < fs.g.nFatent && Times(fs.g.csize, p) + fs.g.csize <= |secs| && 1 <= fs.g.csize
      ensures p + 1 == |chain| ==> Times(fs.g.csize, p) + fs.g.csize == |secs|
    {
      assert OpenTable(0);
      TimesMonotone(fs.g.csize, p + 1, |chain|);
    }

    /** The first sector of the p-th cluster. */
    lemma EnterCluster(p: nat)
      requires Valid() && !Static() && p < |chain|
      ensures Times(fs.g.csize, p) < |secs| && chain[p] != 0 && AtCluster(fs.g, chain, p, Times(fs.g.csize, p))
      ensures 0 < Clst2Sect(fs.g, chain[p]) == secs[Times(fs.g.csize, p)] < NONE
    {
      LastSectors(p);
      Clst2SectIsFirst(fs.g, chain[p]);
      assert OpenTable(0);
      SectorsAt(fs.g, chain, p, 0);
    }

    /** clst2sect plus the sector's place in the cluster. */
    method SectorIn(clst: Word32, ghost ofs: nat, rest: nat) returns (s: Word32)
      requires Valid() && !Static() && ofs / 512 < |secs|
      requires Place(fs.g, false, chain, ix, clst, ofs / 512) && ofs == 512 * Times(fs.g.csize, ix) + rest
      ensures s == secs[ofs / 512] && s != 0
    {
      assert OpenTable(0);
      Clst2SectIsFirst(fs.g, clst);
      SectorsAt(fs.g, chain, ix, rest / 512);
      s := Clst2Sect(fs.g, clst) + rest / 512;
    }

    /** get_fat on the p-th cluster: the next cluster, or a value past all clusters at the end. */
    method NextInTable(clst: nat, ghost p: nat) returns (nxt: Word32)
      requires Valid() && !Static() && p < |chain| && clst == chain[p]
      modifies fs`wflag, fs`winsect, fs.win, fs.disk
      ensures Valid() && 2 <= clst < |fs.fat| && nxt == fs.fat[clst]
      ensures 2 <= nxt < NONE
      ensures fs.g.nFatent == |fs.fat| && (nxt < fs.g.nFatent <==> p + 1 < |chain|)
      ensures p + 1 < |chain| ==> nxt == chain[p + 1]
    {
      assert OpenTable(0);
      assert IsChain(fs.fat, chain);
      nxt := fs.GetFat(clst);
    }

    /** The next sector of the same cluster. */
    lemma StayInCluster(j: nat, q: nat, csect: nat)
      requires Valid() && !Static() && j < |secs| && Place(fs.g, false, chain, ix, clust, j)
      requires csect < fs.g.csize && j + 1 == Times(fs.g.csize, q) + csect
      ensures csect == 0 ==> q == ix + 1
      ensures csect != 0 ==> j + 1 < |secs| && secs[j] + 1 == secs[j + 1] < NONE && Place(fs.g, false, chain, ix, clust, j + 1)
    {
      NextPlace(fs.g, chain, ix, j, q, csect);
      assert OpenTable(0);
      var r := j - Times(fs.g.csize, ix);
      SectorsAt(fs.g, chain, ix, r);
      if csect != 0 { SectorsAt(fs.g, chain, ix, r + 1); }
    }

    /** The last sector of a cluster. */
    lemma EndOfCluster(j: nat)
      requires Valid() && !Static() && j < |secs| && Place(fs.g, false, chain, ix, clust, j) && j + 1 == Times(fs.g.csize, ix + 1)
      ensures ix < |chain| && clust == chain[ix] && (j + 1 < |secs| <==> ix + 1 < |chain|) && (j + 1 >= |secs| <==> j + 1 == |secs|)
    {
      LastSectors(ix);
      if ix + 1 < |chain| { LastSectors(ix + 1); }
    }

    /** Everything a directory operation can change on the volume. */
    ghost function Snap(): State
      reads this`table, this`chain, this`secs, fs`store, fs`fat, fs`freeClst
    {
      State(table, chain, secs, fs.store, fs.fat, fs.freeClst)
    }

    /** The table has got unused entries at its end, from a volume that had room; nothing else outside the FATs changed. */
    ghost predicate Grown(pre: State)
      reads this`table, this`chain, this`secs, fs`store, fs`freeClst
    {
      && !Static() && HasFree(pre.fat) && (exact || pre.free != 0)
      && forall t {:trigger OpenStretch(t)} :: OpenStretch(t) ==>
           && pre.chain <= chain && |chain| == |pre.chain| + 1 && fs.freeClst == CountLess(pre)
           && pre.secs <= secs && Lengthened(pre.table, table) && File.Confined(fs.g, secs, pre.store, fs.store)
    }

    /** The table has grown, or nothing has changed. */
    ghost predicate Change(pre: State, grew: bool)
      reads this`table, this`chain, this`secs, fs`store, fs`fat, fs`freeClst
    {
      if grew then Grown(pre) else Snap() == pre
    }

    /** dir_next: point at the next entry; with `stretch` a full chained table gets a cleared cluster. */
    method DirNext(stretch: bool, ghost k: nat) returns (res: FResult)
      requires Valid() && (sect == 0 || At(k))
      modifies this`dptr, this`clust, this`sect, this`ix, this`table, this`chain, this`secs
      modifies fs`wflag, fs`winsect, fs`store, fs`fat, fs`lastClst, fs`freeClst, fs`fsiFlag, fs.win, fs.disk
      ensures Valid()
      ensures old(sect) == 0 ==> res == FrNoFile
      ensures old(sect) != 0 && k + 1 < |old(table)| ==> res == FrOk
      ensures old(sect) != 0 && k + 1 == |old(table)| && (!stretch || Static() || k + 1 == 65536) ==> res == FrNoFile
      ensures res == FrOk ==> old(sect) != 0 && At(k + 1)
      ensures res == FrOk || res == FrNoFile || res == FrDenied
      ensures res == FrNoFile ==> sect == 0 && (k + 1 == 65536 || !stretch || Static() || old(sect) == 0)
      ensures res == FrDenied ==> NoRoom()
      ensures Change(old(Snap()), res == FrOk && k + 1 >= |old(table)|) && (res == FrOk ==> k + 1 < 65536)
    {
      assert OpenAt(0);
      var ofs := dptr + 32;
      if ofs >= MAX_DIR { sect := 0; }
      if sect == 0 { return FrNoFile; }
      res := Advance(ofs, stretch, k);
    }

    /** dir_next behind the range checks. */
    method Advance(ofs: Word32, stretch: bool, ghost k: nat) returns (res: FResult)
      requires Valid() && At(k) && ofs == dptr + 32 < MAX_DIR
      modifies this`dptr, this`clust, this`sect, this`ix, this`table, this`chain, this`secs
      modifies fs`wflag, fs`winsect, fs`store, fs`fat, fs`lastClst, fs`freeClst, fs`fsiFlag, fs.win, fs.disk
      ensures Valid()
      ensures k + 1 < |old(table)| ==> res == FrOk
      ensures k + 1 == |old(table)| && (!stretch || Static()) ==> res == FrNoFile
      ensures res == FrOk ==> At(k + 1)
      ensures res == FrOk || res == FrNoFile || res == FrDenied
      ensures res == FrNoFile ==> sect == 0 && (!stretch || Static())
      ensures res == FrDenied ==> NoRoom()
      ensures Change(old(Snap()), res == FrOk && k + 1 >= |old(table)|)
    {
      assert OpenAt(0);
      NextOffset(k, |secs|);
      if ofs % 512 == 0 {
        res := NextTableSector(ofs, stretch, k / 16);
        if res != FrOk { return; }
      }
      dptr := ofs;
      res := FrOk;
    }

    /** dir_next at the end of a sector. */
    method NextTableSector(ofs: nat, stretch: bool, ghost j: nat) returns (res: FResult)
      requires Valid() && j < |secs| && sect == secs[j] && Place(fs.g, Static(), chain, ix, clust, j)
      requires ofs == 512 * (j + 1) && ofs < MAX_DIR
      modifies this`clust, this`sect, this`ix, this`table, this`chain, this`secs
      modifies fs`wflag, fs`winsect, fs`store, fs`fat, fs`lastClst, fs`freeClst, fs`fsiFlag, fs.win, fs.disk
      ensures Valid()
      ensures j + 1 < |old(secs)| ==> res == FrOk
      ensures res == FrOk ==> j + 1 < |secs| && sect == secs[j + 1] && sect != 0 && Place(fs.g, Static(), chain, ix, clust, j + 1)
      ensures res == FrOk || res == FrNoFile || res == FrDenied
      ensures res == FrNoFile ==> (!stretch || Static()) && sect == 0
      ensures j + 1 == |old(secs)| && (!stretch || Static()) ==> res == FrNoFile
      ensures res == FrDenied ==> NoRoom()
      ensures Change(old(Snap()), res == FrOk && j + 1 >= |old(secs)|)
    {
      if clust == 0 {
        res := NextStatic(ofs, j);
      } else {
        res := NextSector(ofs, stretch, j, Snap());
      }
    }

    /** dir_next in the static root directory, at the end of a sector. */
    method NextStatic(ofs: nat, ghost j: nat) returns (res: FResult)
      requires Valid() && Static() && j < |secs| && sect == secs[j] && ofs == 512 * (j + 1)
      modifies this`sect
      ensures res == if j + 1 < |secs| then FrOk else FrNoFile
      ensures if res == FrOk then sect == secs[j + 1] && sect != 0 else sect == 0
    {
      StaticSectors();
      assert j + 1 < |secs| ==> secs[j + 1] == fs.g.dirbase + j + 1;
      sect := (sect + 1) % 0x1_0000_0000;
      if ofs / 32 >= fs.g.nRootdir { sect := 0; return FrNoFile; }
      return FrOk;
    }

    /** dir_next in a chained table, at the end of a sector. */
    method NextSector(ofs: nat, stretch: bool, ghost j: nat, ghost pre: State) returns (res: FResult)
      requires Valid() && pre == Snap() && !Static() && j < |secs| && sect == secs[j] && Place(fs.g, false, chain, ix, clust, j)
      requires ofs == 512 * (j + 1) && ofs < MAX_DIR
      modifies this`clust, this`sect, this`ix, this`table, this`chain, this`secs
      modifies fs`wflag, fs`winsect, fs`store, fs`fat, fs`lastClst, fs`freeClst, fs`fsiFlag, fs.win, fs.disk
      ensures Valid()
      ensures j + 1 < |pre.secs| ==> res == FrOk
      ensures res == FrOk ==> j + 1 < |secs| && sect == secs[j + 1] && sect != 0 && Place(fs.g, false, chain, ix, clust, j + 1)
      ensures res == FrOk || res == FrNoFile || res == FrDenied
      ensures res == FrNoFile ==> !stretch && sect == 0
      ensures j + 1 == |pre.secs| && !stretch ==> res == FrNoFile
      ensures res == FrDenied ==> NoRoom()
      ensures Change(pre, res == FrOk && j + 1 >= |pre.secs|)
    {
      var csect, q := PlaceInCluster(ofs / 512);
      StayInCluster(j, q, csect);
      if csect == 0 {
        EndOfCluster(j);
        res := NextClusterSector(stretch, ix, pre);
      } else {
        sect := sect + 1;
        res := FrOk;
      }
    }

    /** dir_next in a chained table, at the end of a cluster. */
    method NextClusterSector(stretch: bool, ghost p: nat, ghost pre: State) returns (res: FResult)
      requires Valid() && !Static() && ix == p < |chain| && clust == chain[p] && 16 * Times(fs.g.csize, p + 1) < 65536 && pre == Snap()
      modifies this`clust, this`sect, this`ix, this`table, this`chain, this`secs
      modifies fs`wflag, fs`winsect, fs`store, fs`fat, fs`lastClst, fs`freeClst, fs`fsiFlag, fs.win, fs.disk
      ensures Valid()
      ensures p + 1 < |pre.chain| ==> res == FrOk
      ensures res == FrOk ==> ix == p + 1 < |chain| && clust == chain[ix] && clust != 0 && AtCluster(fs.g, chain, ix, Times(fs.g.csize, ix))
      ensures res == FrOk ==> Times(fs.g.csize, ix) < |secs| && sect == secs[Times(fs.g.csize, ix)] && sect != 0
      ensures res == FrOk || res == FrNoFile || res == FrDenied
      ensures res == FrNoFile ==> !stretch && sect == 0
      ensures p + 1 == |pre.chain| && !stretch ==> res == FrNoFile
      ensures res == FrDenied ==> NoRoom()
      ensures Change(pre, res == FrOk && p + 1 >= |pre.chain|)
    {
      var clst;
      res, clst := NextTableCluster(stretch, p, pre);
      if res == FrOk { EnterFirst(clst, p + 1); }
      if res == FrNoFile { sect := 0; }
    }

    /** Point at the first sector of the p-th cluster. */
    method EnterFirst(clst: Word32, ghost p: nat)
      requires Valid() && !Static() && p < |chain| && clst == chain[p]
      modifies this`clust, this`sect, this`ix
      ensures ix == p && clust == clst != 0 && AtCluster(fs.g, chain, p, Times(fs.g.csize, p))
      ensures Times(fs.g.csize, p) < |secs| && sect == secs[Times(fs.g.csize, p)] && sect != 0
    {
      var s := FirstSector(clst, p);
      ix := p;
      clust := clst;
      sect := s;
    }

    /** clst2sect of the p-th cluster. */
    method FirstSector(clst: Word32, ghost p: nat) returns (s: Word32)
      requires Valid() && !Static() && p < |chain| && clst == chain[p]
      ensures clst != 0 && AtCluster(fs.g, chain, p, Times(fs.g.csize, p))
      ensures Times(fs.g.csize, p) < |secs| && s == secs[Times(fs.g.csize, p)] && s != 0
    {
      EnterCluster(p);
      s := Clst2Sect(fs.g, clst);
    }

    method PlaceInCluster(k: nat) returns (csect: nat, ghost q: nat)
      requires Valid()
      ensures csect < fs.g.csize && k == Times(fs.g.csize, q) + csect
    {
      assert OpenTable(0);
      csect, q := SectorPlace(fs.g, k);
    }

    method NextTableCluster(stretch: bool, ghost p: nat, ghost pre: State) returns (res: FResult, clst: Word32)
      requires Valid() && !Static() && ix == p < |chain| && clust == chain[p] && 16 * Times(fs.g.csize, p + 1) < 65536 && pre == Snap()
      modifies this`table, this`chain, this`secs
      modifies fs`wflag, fs`winsect, fs`store, fs`fat, fs`lastClst, fs`freeClst, fs`fsiFlag, fs.win, fs.disk
      ensures Valid()
      ensures p + 1 < |pre.chain| ==> res == FrOk
      ensures res == FrOk ==> p + 1 < |chain| && clst == chain[p + 1]
      ensures res == FrOk || res == FrNoFile || res == FrDenied
      ensures res == FrNoFile ==> !stretch
      ensures p + 1 == |pre.chain| && !stretch ==> res == FrNoFile
      ensures res == FrDenied ==> NoRoom()
      ensures Change(pre, res == FrOk && p + 1 >= |pre.chain|)
    {
      clst := NextInTable(clust, p);
      res := FrOk;
      if clst >= fs.g.nFatent {
        if !stretch { return FrNoFile, clst; }
        clst := StretchTable();
        if clst == 0 { return FrDenied, clst; }
      }
    }

    /** create_chain and dir_clear on behalf of dir_next. */
    method StretchTable() returns (clst: Word32)
      requires Valid() && !Static() && ix + 1 == |chain| && clust == chain[ix] && 2 <= clust < |fs.fat| && fs.fat[clust] >= |fs.fat|
      requires 16 * Times(fs.g.csize, ix + 1) < 65536
      modifies this`table, this`chain, this`secs
      modifies fs`wflag, fs`winsect, fs`store, fs`fat, fs`lastClst, fs`freeClst, fs`fsiFlag, fs.win, fs.disk
      ensures Valid()
      ensures clst == 0 || (ix + 1 < |chain| && clst == chain[ix + 1])
      ensures clst == 0 ==> NoRoom()
      ensures Change(old(Snap()), clst != 0)
    {
      ghost var pre := Snap();
      LastSectors(ix);
      assert OpenTable(0);
      clst := TakeCluster();
      if clst != 0 { ClearCluster(clst, pre); }
    }

    /** dir_clear on a cluster that create_chain has linked behind the table. */
    method ClearCluster(clst: Word32, ghost pre: State)
      requires fs.Valid() && DataOk(fs.g, |fs.store|) && (exact ==> fs.CountOk()) && !Static() && |fn| == 11
      requires HasFree(pre.fat) && (exact || pre.free != 0) && fs.freeClst == CountLess(pre) && SecsOk(secs, |fs.store|) && AboveFats(fs.g, secs) && 16 * |secs| < 65536
      requires pre.chain == chain && pre.secs == secs && SameOutside(fs.g, pre.store, fs.store) && pre.table == table == TableOf(secs, pre.store)
      requires 2 <= clst < fs.g.nFatent && TableHeld(fs.g, fs.fat, sclust, chain + [clst], others, secs + Run(ClusterSect(fs.g, clst), fs.g.csize))
      requires SecsOk(secs + Run(ClusterSect(fs.g, clst), fs.g.csize), |fs.store|)
      modifies this`table, this`chain, this`secs, fs`wflag, fs`winsect, fs`store, fs.win, fs.disk
      ensures Valid() && Grown(pre) && chain == old(chain) + [clst]
    {
      ClusterInside(fs.g, clst);
      ClearedCluster(fs.g, secs, pre.store, fs.store, ClusterSect(fs.g, clst));
      fs.DirClear(clst);
      chain := chain + [clst];
      secs := secs + Run(ClusterSect(fs.g, clst), fs.g.csize);
      table := TableOf(secs, fs.store);
    }

    /** create_chain behind the last cluster of the table. */
    method TakeCluster() returns (clst: Word32)
      requires fs.Valid() && DataOk(fs.g, |fs.store|) && !Static() && TableHeld(fs.g, fs.fat, sclust, chain, others, secs)
      requires exact ==> fs.CountOk()
      requires clust == chain[|chain| - 1]
      modifies fs`wflag, fs`winsect, fs`store, fs`fat, fs`lastClst, fs`freeClst, fs`fsiFlag, fs.win, fs.disk
      ensures fs.Valid() && SameOutside(fs.g, old(fs.store), fs.store) && (exact ==> fs.CountOk())
      ensures clst == 0 ==> NoRoom()
      ensures clst != 0 ==> !old(NoRoom())
      ensures clst == 0 ==> fs.store == old(fs.store) && fs.fat == old(fs.fat) && fs.freeClst == old(fs.freeClst)
      ensures clst != 0 ==> fs.freeClst == if old(fs.freeClst) <= |old(fs.fat)| - 2 then old(fs.freeClst) - 1 else old(fs.freeClst)
      ensures clst != 0 ==> 2 <= clst < fs.g.nFatent && TableHeld(fs.g, fs.fat, sclust, chain + [clst], others, secs + Run(ClusterSect(fs.g, clst), fs.g.csize))
      ensures clst != 0 ==> SecsOk(secs + Run(ClusterSect(fs.g, clst), fs.g.csize), |fs.store|)
    {
      ghost var f0 := fs.fat;
      assert IsChain(f0, chain);
      File.NoBadLinks(f0, others + {chain});
      clst := fs.CreateChain(clust);
      if clst == 0 { return; }
      File.StretchedFile(fs.g, f0, fs.fat, others, chain, clust, clst, |fs.store|);
    }

    /** move_window to the sector of the entry: the window shows the entry. */
    method LoadEntry(ghost k: nat)
      requires Valid() && At(k)
      modifies fs`wflag, fs`winsect, fs.win, fs.disk
      ensures Valid() && fs.winsect == sect && sect != NONE && FatEnd(fs.g) <= sect
      ensures dptr % 512 == 32 * (k % 16) && fs.win.Length == 512
      ensures fs.win[dptr % 512..dptr % 512 + 32] == table[k]
    {
      assert OpenTable(0);
      assert OpenAt(0);
      OffsetFacts(dptr, |secs|);
      fs.MoveWindow(sect);
      assert fs.WindowFacts() by { assert Unseal(0); }
    }

    /** The test dir_find makes at each entry: the end of the table, and a match. */
    method Compare(ghost k: nat) returns (end: bool, same: bool)
      requires Valid() && At(k)
      modifies fs`wflag, fs`winsect, fs.win, fs.disk
      ensures Valid()
      ensures end <==> table[k][0] == 0
      ensures same <==> Matches(table[k], fn)
    {
      LoadEntry(k);
      var o := dptr % 512;
      assert fs.win[o..o + 32][..11] == fs.win[o..o + 11];
      end := fs.win[o] == 0;
      same := fs.win[o + 11] / 8 % 2 == 0 && fs.win[o..o + 11] == fn;
    }

    /** dir_find: the first entry with the name fn. */
    method DirFind() returns (res: FResult, ghost k: nat)
      requires Valid()
      modifies this`dptr, this`clust, this`sect, this`ix, this`table, this`chain, this`secs
      modifies fs`wflag, fs`winsect, fs`store, fs`fat, fs`lastClst, fs`freeClst, fs`fsiFlag, fs.win, fs.disk
      ensures Valid() && Snap() == old(Snap())
      ensures res == if Lookup(table, fn, 0) == None then FrNoFile else FrOk
      ensures res == FrOk ==> At(k) && Lookup(table, fn, 0) == Some(k)
      ensures res == FrOk ==> BitAnd(table[k][11], 0x08) == 0 && table[k][..11] == fn
      ensures res == FrOk ==> forall j {:trigger table[j]} :: 0 <= j < k ==> table[j][0] != 0 && !(BitAnd(table[j][11], 0x08) == 0 && table[j][..11] == fn)
      ensures res != FrOk ==> res == FrNoFile && exists z: nat :: NoneBefore(table, fn, z)
    {
      res, k := Search();
      SearchMeans(table, fn);
    }

    /** The loop of dir_find. */
    method Search() returns (res: FResult, ghost k: nat)
      requires Valid()
      modifies this`dptr, this`clust, this`sect, this`ix, this`table, this`chain, this`secs
      modifies fs`wflag, fs`winsect, fs`store, fs`fat, fs`lastClst, fs`freeClst, fs`fsiFlag, fs.win, fs.disk
      ensures Valid() && Snap() == old(Snap())
      ensures res == if Lookup(table, fn, 0) == None then FrNoFile else FrOk
      ensures res == FrOk ==> At(k) && Lookup(table, fn, 0) == Some(k)
    {
      ghost var pre := Snap();
      res := DirSdi(0);
      k := 0;
      while true
        invariant Valid() && At(k) && Snap() == pre
        invariant Lookup(table, fn, 0) == Lookup(table, fn, k)
        decreases |table| - k
      {
        var more;
        res, more := TryEntry(k);
        if !more { return; }
        k := k + 1;
      }
    }

    /** One turn of dir_find: the entry ends the table, matches, or is passed. */
    method TryEntry(ghost k: nat) returns (res: FResult, more: bool)
      requires Valid() && At(k)
      modifies this`dptr, this`clust, this`sect, this`ix, this`table, this`chain, this`secs
      modifies fs`wflag, fs`winsect, fs`store, fs`fat, fs`lastClst, fs`freeClst, fs`fsiFlag, fs.win, fs.disk
      ensures Valid() && Snap() == old(Snap())
      ensures if more then At(k + 1) && Lookup(table, fn, k) == Lookup(table, fn, k + 1)
        else if res == FrOk then At(k) && Lookup(table, fn, k) == Some(k)
        else res == FrNoFile && Lookup(table, fn, k) == None
    {
      LookupStep(table, fn, k);
      var end, same := Compare(k);
      if end { return FrNoFile, false; }
      if same { return FrOk, false; }
      res := DirNext(false, k);
      more := res == FrOk;
    }

    /** The test dir_alloc makes at each entry. */
    method EntryIsFree(ghost k: nat) returns (free: bool)
      requires Valid() && At(k)
      modifies fs`wflag, fs`winsect, fs.win, fs.disk
      ensures Valid()
      ensures free <==> IsFree(table[k])
    {
      LoadEntry(k);
      var o := dptr % 512;
      assert fs.win[o..o + 32][0] == fs.win[o];
      free := fs.win[o] == 0xE5 || fs.win[o] == 0;
    }

    /** dir_alloc for one entry: the first free one, in a new cluster if the table is full. */
    method DirAlloc() returns (res: FResult, ghost k: nat)
      requires Valid()
      modifies this`dptr, this`clust, this`sect, this`ix, this`table, this`chain, this`secs
      modifies fs`wflag, fs`winsect, fs`store, fs`fat, fs`lastClst, fs`freeClst, fs`fsiFlag, fs.win, fs.disk
      ensures Valid() && Change(old(Snap()), res == FrOk && k >= |old(table)|)
      ensures res == FrOk || res == FrDenied
      ensures res == FrOk ==> At(k) && FirstFree(table, k) && k <= |old(table)|
      ensures res == FrOk ==> (table[k][0] == 0xE5 || table[k][0] == 0) && forall j {:trigger table[j]} :: 0 <= j < k ==> table[j][0] != 0xE5 && table[j][0] != 0
      ensures res == FrDenied <==>
        && (forall j {:trigger old(table)[j]} :: 0 <= j < |old(table)| ==> old(table)[j][0] != 0xE5 && old(table)[j][0] != 0)
        && (Static() || |old(table)| == 65536 || old(NoRoom()))
      ensures res == FrDenied ==> Snap() == old(Snap())
      ensures res == FrDenied <==> old(Full())
    {
      ghost var pre := Snap();
      res, k := SearchFree(pre);
      if res == FrOk { FoundFree(pre, k); }
      if res == FrNoFile { res := FrDenied; }
    }

    /** The loop of dir_alloc. */
    method SearchFree(ghost pre: State) returns (res: FResult, ghost k: nat)
      requires Valid() && pre == Snap()
      modifies this`dptr, this`clust, this`sect, this`ix, this`table, this`chain, this`secs
      modifies fs`wflag, fs`winsect, fs`store, fs`fat, fs`lastClst, fs`freeClst, fs`fsiFlag, fs.win, fs.disk
      ensures Valid() && SlotsOk(pre.table)
      ensures res == FrOk ==> At(k) && FirstFree(table, k) && k <= |pre.table| && Change(pre, k >= |pre.table|) && (k >= |pre.table| ==> |pre.table| < 65536)
      ensures res != FrOk ==> res in {FrNoFile, FrDenied} && Snap() == pre && Full()
    {
      res := DirSdi(0);
      k := 0;
      while true
        invariant Valid() && At(k) && FullTo(table, k) && k <= |pre.table|
        invariant Change(pre, k >= |pre.table|) && (k >= |pre.table| ==> |pre.table| < 65536 && IsFree(table[k]))
        decreases 65536 - k
      {
        var more;
        res, more := TryFree(k, pre);
        if !more { return; }
        k := k + 1;
      }
    }

    /** Where a free entry was found, the table was not full. */
    lemma FoundFree(pre: State, k: nat)
      requires SlotsOk(pre.table) && SlotsOk(table) && FirstFree(table, k) && Change(pre, k >= |pre.table|) && (k >= |pre.table| ==> |pre.table| < 65536)
      ensures !(FullTo(pre.table, |pre.table|) && (Static() || |pre.table| == 65536 || !HasFree(pre.fat) || (!exact && pre.free == 0)))
    {
    }

    /** One turn of dir_alloc: the entry is free, or it is passed, in a new cluster if need be, or there is no more room. */
    method TryFree(ghost k: nat, ghost pre: State) returns (res: FResult, more: bool)
      requires Valid() && At(k) && SlotsOk(pre.table) && FullTo(table, k) && k <= |pre.table|
      requires Change(pre, k >= |pre.table|) && (k >= |pre.table| ==> |pre.table| < 65536 && IsFree(table[k]))
      modifies this`dptr, this`clust, this`sect, this`ix, this`table, this`chain, this`secs
      modifies fs`wflag, fs`winsect, fs`store, fs`fat, fs`lastClst, fs`freeClst, fs`fsiFlag, fs.win, fs.disk
      ensures Valid()
      ensures more ==> At(k + 1) && FullTo(table, k + 1) && k < |pre.table| && Change(pre, k + 1 >= |pre.table|)
      ensures more && k + 1 >= |pre.table| ==> |pre.table| < 65536 && IsFree(table[k + 1])
      ensures !more && res == FrOk ==> At(k) && FirstFree(table, k) && Change(pre, k >= |pre.table|)
      ensures !more && res != FrOk ==> res in {FrNoFile, FrDenied} && Snap() == pre && Full()
    {
      var free := EntryIsFree(k);
      if free { return FrOk, false; }
      res := DirNext(true, k);
      more := res == FrOk;
      if more { FullNext(pre, k + 1); }
    }

    /** After dir_next moved on from a used entry. */
    lemma FullNext(pre: State, k: nat)
      requires SlotsOk(table) && Change(pre, k >= |pre.table|) && SlotsOk(pre.table) && 0 < k <= |pre.table| && k < |table|
      requires FullTo(pre.table, k - 1) && !IsFree(pre.table[k - 1])
      ensures FullTo(table, k) && (k == |pre.table| ==> IsFree(table[k])) && (k == |pre.table| ==> FullTo(pre.table, k))
    {
      assert OpenStretch(0);
      assert forall j {:trigger pre.table[j]} :: 0 <= j < k ==> pre.table[j] == table[j];
    }

    /** mem_set or mem_cpy at the start of the entry in the window, and wflag. */
    method StoreEntry(data: seq<Byte>, ghost k: nat)
      requires Valid() && At(k) && fs.winsect == sect && |data| <= 32
      modifies this`table, fs`wflag, fs`store, fs.win
      ensures Valid() && At(k) && table == old(table)[k := Patch(old(table)[k], 0, data)]
      ensures File.Confined(fs.g, secs, old(fs.store), fs.store)
    {
      assert OpenTable(0);
      ghost var s := fs.store;
      AddressOf(k);
      fs.PokeBytes(dptr % 512, data);
      EntryStored(s, k, data);
    }

    /** The window address of the entry. */
    lemma AddressOf(k: nat)
      requires Valid() && At(k) && SecsOk(secs, |fs.store|)
      ensures k / 16 < |secs| && SlotAddr(secs, k) == 512 * sect + dptr % 512 && dptr % 512 + 32 <= 512 && FatEnd(fs.g) <= sect < NONE
    {
      assert OpenTable(0);
      assert OpenAt(0);
      OffsetFacts(dptr, |secs|);
    }

    /** The table after the bytes of entry k changed. */
    ghost method EntryStored(s: seq<Byte>, k: nat, data: seq<Byte>)
      requires fs.Valid() && |s| == |fs.store| && SecsOk(secs, |s|) && k / 16 < |secs| && |data| <= 32
      requires fs.store == Patch(s, SlotAddr(secs, k), data)
      requires k < Entries(|secs|) && table == TableOf(secs, s) && DataOk(fs.g, |s|) && AboveFats(fs.g, secs)
      requires TableHeld(fs.g, fs.fat, sclust, chain, others, secs) && (exact ==> fs.CountOk())
      modifies this`table
      ensures Held() && table == old(table)[k := Patch(old(table)[k], 0, data)]
      ensures File.Confined(fs.g, secs, s, fs.store)
    {
      TablePatched(secs, s, k, 0, data);
      PatchIsConfined(fs.g, secs, s, k, data);
      table := TableOf(secs, fs.store);
    }

    /** dir_register: store a new entry for the name fn in the first free place. */
    method DirRegister() returns (res: FResult, ghost k: nat)
      requires Valid()
      modifies this`dptr, this`clust, this`sect, this`ix, this`table, this`chain, this`secs
      modifies fs`wflag, fs`winsect, fs`store, fs`fat, fs`lastClst, fs`freeClst, fs`fsiFlag, fs.win, fs.disk
      ensures Valid()
      ensures res == FrOk || res == FrDenied
      ensures res == FrOk ==> At(k) && fs.winsect == sect && Registered(old(Snap()), Snap(), fn, k)
      ensures res == FrOk && InOrder(old(table)) && NameOk(fn) && fn !in Meaning(old(table)) ==>
        InOrder(table) && Meaning(table) == Meaning(old(table))[fn := NewSlot(fn)]
      ensures res == FrDenied ==> Snap() == old(Snap())
      ensures res == FrDenied <==> old(Full())
      ensures old(secs) <= secs && File.Confined(fs.g, secs, old(fs.store), fs.store)
    {
      ghost var pre := Snap();
      res, k := DirAlloc();
      Allocated(pre, res == FrOk && k >= |pre.table|);
      if res == FrOk {
        ghost var mid := Snap();
        PutName(k);
        NameStored(pre, mid, fn, k);
        File.ConfinedTrans(fs.g, secs, pre.store, mid.store, fs.store);
        if InOrder(pre.table) && NameOk(fn) && fn !in Meaning(pre.table) { NameAdded(pre.table, mid.table, fn, k); }
      }
    }

    /** What dir_alloc has done to the table. */
    lemma Allocated(pre: State, grew: bool)
      requires Change(pre, grew) && SlotsOk(pre.table)
      ensures Lengthened(pre.table, table) && pre.secs <= secs && File.Confined(fs.g, secs, pre.store, fs.store)
      ensures if grew then pre.chain <= chain && |chain| == |pre.chain| + 1 && fs.freeClst == CountLess(pre) else Snap() == pre
    {
      assert OpenStretch(0);
    }

    /** The name and zeros go into the entry. */
    method PutName(ghost k: nat)
      requires Valid() && At(k)
      modifies this`table, fs`wflag, fs`winsect, fs`store, fs.win, fs.disk
      ensures Valid() && At(k) && fs.winsect == sect && table == old(table)[k := NewSlot(fn)] && File.Confined(fs.g, secs, old(fs.store), fs.store)
    {
      ghost var es, s := table, fs.store;
      LoadEntry(k);
      StoreEntry(Zeros(32), k);
      ghost var s1 := fs.store;
      StoreEntry(fn, k);
      SlotStored(es, table, fn, k);
      File.ConfinedTrans(fs.g, secs, s, s1, fs.store);
    }

    /** dir_remove: mark the entry deleted. */
    method DirRemove(ghost k: nat) returns (res: FResult)
      requires Valid() && At(k)
      modifies this`table, fs`wflag, fs`winsect, fs`store, fs.win, fs.disk
      ensures Valid() && res == FrOk
      ensures table == old(table)[k := old(table)[k][0 := 0xE5]]
      ensures forall n: Name :: InOrder(old(table)) && NameOk(n) && Lookup(old(table), n, 0) == Some(k) ==>
        InOrder(table) && Meaning(table) == Meaning(old(table)) - {n}
      ensures File.Confined(fs.g, secs, old(fs.store), fs.store)
    {
      LoadEntry(k);
      StoreEntry([0xE5], k);
      assert Patch(old(table)[k], 0, [0xE5]) == old(table)[k][0 := 0xE5];
      forall n: Name | InOrder(old(table)) && NameOk(n) && Lookup(old(table), n, 0) == Some(k)
        ensures InOrder(table) && Meaning(table) == Meaning(old(table)) - {n}
      {
        RemoveMeaning(old(table), n, k);
      }
      res := FrOk;
    }

    ghost function Position(): (Word32, Word32, Word32)
      reads this`dptr, this`clust, this`sect
    {
      (dptr, clust, sect)
    }

    /** dir_sdi(0) and then k times dir_next. */
    method StepTo(k: nat) returns (res: FResult)
      requires Valid()
      modifies this`dptr, this`clust, this`sect, this`ix, this`table, this`chain, this`secs
      modifies fs`wflag, fs`winsect, fs`store, fs`fat, fs`lastClst, fs`freeClst, fs`fsiFlag, fs.win, fs.disk
      ensures Valid() && Snap() == old(Snap())
      ensures res == FrOk <==> k < |table|
      ensures res == FrOk ==> At(k)
    {
      res := DirSdi(0);
      for i := 0 to k
        invariant Valid() && At(i) && Snap() == old(Snap()) && res == FrOk
      {
        res := DirNext(false, i);
        if res != FrOk { return; }
      }
    }
  }

  /** Two directory objects for the same table. */
  ghost predicate Twins(a: Dir, b: Dir)
    reads a, b
  {
    a.fs == b.fs && a.sclust == b.sclust && a.chain == b.chain && a.others == b.others
  }

  /** What one of two objects for a table reads, the other one need not read again. */
  lemma TwinStays(a: Dir, b: Dir)
    requires a.Valid() && Twins(a, b) && |b.fn| == 11 && b.secs == a.secs && b.table == a.table && (b.exact ==> b.fs.CountOk())
    ensures b.Valid()
  {
    assert OpenTable(0);
  }

  lemma TwinTables(a: Dir, b: Dir)
    requires a.Valid() && b.Valid() && Twins(a, b)
    ensures a.secs == b.secs && a.table == b.table && (a.exact || b.exact ==> a.fs.CountOk())
  {
    assert OpenTable(0);
  }

  /** An entry's number determines offset, cluster and sector. */
  lemma PositionIsUnique(a: Dir, b: Dir, k: nat)
    requires a.At(k) && b.At(k) && Twins(a, b) && a.secs == b.secs
    ensures a.Position() == b.Position()
  {
    assert OpenAt(0);
    PlaceIsUnique(a.fs.g, a.Static(), a.chain, a.ix, a.clust, b.ix, b.clust, k / 16);
  }

  /**
   * Stepping to entry k with one object and jumping to it with another: both succeed exactly if there is such an entry,
   * and then they stand at the same offset, cluster and sector. The volume and the table are untouched.
   */
  method StepOrJump(a: Dir, b: Dir, k: nat) returns (stepped: FResult, jumped: FResult)
    requires a != b && a.Valid() && b.Valid() && Twins(a, b) && 32 * k <= 0xFFFF_FFFF
    modifies a`dptr, a`clust, a`sect, a`ix, a`table, a`chain, a`secs
    modifies a.fs`wflag, a.fs`winsect, a.fs`store, a.fs`fat, a.fs`lastClst, a.fs`freeClst, a.fs`fsiFlag, a.fs.win, a.fs.disk
    modifies b`dptr, b`clust, b`sect, b`ix
    ensures a.Valid() && b.Valid() && a.Snap() == old(a.Snap()) && b.Snap() == old(b.Snap())
    ensures (stepped == FrOk <==> k < |a.table|) && (jumped == FrOk <==> k < |a.table|)
    ensures stepped == FrOk ==> a.At(k) && b.At(k) && a.Position() == b.Position()
  {
    TwinTables(a, b);
    stepped := a.StepTo(k);
    TwinStays(a, b);
    jumped := b.DirSdi(32 * k);
    TwinStays(b, a);
    if stepped == FrOk { PositionIsUnique(a, b, k); }
  }
}
