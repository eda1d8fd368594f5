/** Open files: f_read, f_write, f_lseek and f_truncate over the sector buffer and the chain. */
module File {
  import opened Machine
  import opened Geometry
  import opened Chains
  import opened FileView
  import opened DataArea
  import opened Volume

  /** Proofs that need the sealed parts of a file's invariant mention these. */
  ghost predicate OpenChain(k: int) { true }
  ghost predicate OpenData(k: int) { true }
  ghost predicate OpenAt(k: int) { true }
  ghost predicate OpenCore(k: int) { true }
  ghost predicate OpenConfined(k: int) { true }
  ghost predicate OpenWrote(k: int) { true }
  ghost predicate OpenSect(k: int) { true }
  ghost predicate OpenLoop(k: int) { true }

  /** The chain x, with first cluster c, is one of the chains of a well-formed FAT. */
  ghost predicate ChainHeld(fat: Fat, x: Chain, others: set<Chain>, c: nat) {
    forall k {:trigger OpenChain(k)} :: OpenChain(k) ==>
      && WellFormed(fat, if x == [] then others else others + {x}) && x !in others
      && c == if x == [] then 0 else x[0]
  }

  /** The sectors of chain x and the buffer hold the content; the window w stands for none of them. */
  ghost predicate ContentHeld(g: Geo, store: seq<Byte>, w: nat, x: Chain, secs: seq<nat>, content: seq<Byte>, c: Cache) {
    forall k {:trigger OpenData(k)} :: OpenData(k) ==>
      && DataOk(g, |store|)
      && Clusters(g, x) && secs == Sectors(g, x)
      && (c.sect != 0 ==> g.database <= c.sect && 512 * c.sect + 512 <= |store|)
      && (c.dirty ==> c.sect != 0 && c.sect in secs)
      && Holds(content, secs, store, c)
      && NotAmong(secs, w)
  }

  /** The sectors hold any longer content that they have room for. */
  lemma LongerContent(g: Geo, store: seq<Byte>, w: nat, x: Chain, secs: seq<nat>, content: seq<Byte>, c: Cache, size: nat) returns (r: seq<Byte>)
    requires ContentHeld(g, store, w, x, secs, content, c) && |content| <= size <= 512 * |secs|
    ensures ContentHeld(g, store, w, x, secs, r, c) && |r| == size && content <= r
  {
    assert OpenData(0);
    r := Stretched(content, secs, store, c, size);
  }

  /** c is the p-th cluster of x, and file sector k is in it. */
  ghost predicate ClusterHeld(g: Geo, x: Chain, p: nat, c: nat, k: int) {
    forall t {:trigger OpenAt(t)} :: OpenAt(t) ==> 0 <= k && AtCluster(g, x, p, k) && c == x[p]
  }

  ghost predicate NotAmong(secs: seq<nat>, w: nat) {
    forall k {:trigger secs[k]} :: 0 <= k < |secs| ==> secs[k] != w
  }

  /** Sector s is in no cluster of the given chains. */
  ghost predicate SectApart(g: Geo, others: set<Chain>, s: nat) {
    forall k {:trigger OpenSect(k)} :: OpenSect(k) ==>
      forall y, i {:trigger y[i], y in others} :: y in others && 0 <= i < |y| ==> !InCluster(g, y[i], s)
  }

  /** There is no sector s, or it is one of the given ones. */
  ghost predicate OwnSect(secs: seq<nat>, s: nat) {
    s == 0 || forall k {:trigger OpenSect(k)} :: OpenSect(k) ==> s in secs
  }

  lemma OwnSectGrows(secs: seq<nat>, secs': seq<nat>, s: nat)
    requires secs <= secs' && OwnSect(secs, s)
    ensures OwnSect(secs', s)
  {
    if s != 0 { assert OpenSect(0); }
    assert forall k {:trigger secs[k]} :: 0 <= k < |secs| ==> secs[k] == secs'[k];
  }

  /** The window w stands for none of the sectors, which are behind the FATs. */
  ghost predicate Unseen(g: Geo, secs: seq<nat>, w: nat) {
    forall k {:trigger secs[k]} :: 0 <= k < |secs| ==> secs[k] != w && FatEnd(g) <= secs[k]
  }

  class Fil {
    const fs: Fatfs
    const buf: array<Byte>
    const readable: bool
    const writable: bool
    var dirty: bool
    var modified: bool
    var sclust: Word32
    var objsize: Word32
    var fptr: Word32
    var clust: Word32
    var sect: Word32

    /** The file's bytes, its chain, the sectors of the chain and the position of clust in the chain. */
    ghost var content: seq<Byte>
    ghost var chain: Chain
    ghost var secs: seq<nat>
    ghost var ix: nat
    /** The chains of everything else on the volume. */
    ghost var others: set<Chain>
    /** Sectors of another open file, which the window does not stand for either. */
    ghost var watched: seq<nat>
    /** The buffer is empty or stands for one of the file's own sectors; f_truncate can leave it with a sector it gave up. */
    ghost var owned: bool
    /** The volume's free count was exact or unknown when the file was opened. */
    ghost const exact: bool

    ghost function Buffer(): Cache
      reads this`sect, this`dirty, buf
    {
      Cache(sect, dirty, buf[..])
    }

    /** All chains of the volume. */
    ghost function Everything(): set<Chain>
      reads this`others, this`chain
    {
      if chain == [] then others else others + {chain}
    }

    /** The window stands for none of the file's sectors. */
    ghost predicate WindowApart(w: nat)
      reads this`secs
    {
      NotAmong(secs, w)
    }

    /** The chain is one of the chains of a well-formed FAT. */
    ghost predicate ChainOk()
      reads this`chain, this`others, this`sclust, fs`fat
    {
      ChainHeld(fs.fat, chain, others, sclust)
    }

    /** The volume is consistent (sealed like the rest of DataHeld). */
    ghost predicate VolumeOk()
      reads this`watched, fs`winsect, fs`wflag, fs`store, fs`fat, fs`freeClst, fs`lastClst, fs`fsiFlag, fs.win, fs.disk
    {
      forall k {:trigger OpenData(k)} :: OpenData(k) ==> fs.Valid() && (exact ==> fs.CountOk()) && Unseen(fs.g, watched, fs.winsect)
    }

    ghost predicate BufferOk()
      reads this`owned, this`sect, this`secs
    {
      owned ==> OwnSect(secs, sect)
    }

    /** No cluster is free; if the free count could not be trusted when the file was opened, the count may only say so. */
    ghost predicate NoRoom()
      reads fs`fat, fs`freeClst
    {
      !HasFree(fs.fat) || (!exact && fs.freeClst == 0)
    }

    /** The chain's sectors and the buffer hold the content. */
    ghost predicate DataHeld()
      reads this`watched, this`content, this`chain, this`secs, this`sect, this`dirty, buf
      reads fs`winsect, fs`wflag, fs`store, fs`fat, fs`freeClst, fs`lastClst, fs`fsiFlag, fs.win, fs.disk
    {
      VolumeOk() && ContentHeld(fs.g, fs.store, fs.winsect, chain, secs, content, Buffer())
    }

    /** Everything but the position. */
    ghost predicate Core()
      reads this`watched, this`owned, this`content, this`chain, this`secs, this`others, this`sclust, this`objsize, this`sect, this`dirty, buf
      reads fs`winsect, fs`wflag, fs`store, fs`fat, fs`freeClst, fs`lastClst, fs`fsiFlag, fs.win, fs.disk
    {
      && objsize == |content| <= 512 * |secs|
      && 1 <= fs.g.csize <= 128 && (sect != 0 ==> SectApart(fs.g, others, sect)) && BufferOk()
      && forall k {:trigger OpenCore(k)} :: OpenCore(k) ==>
           && buf.Length == 512 && buf != fs.win && buf != fs.disk
           && DataHeld()
           && ChainOk()
           && Coherent(fs.store, Buffer())
    }

    /** clust is the cluster of file sector k. */
    ghost predicate At(k: int)
      reads this`ix, this`chain, this`clust
    {
      ClusterHeld(fs.g, chain, ix, clust, k)
    }

    ghost predicate Valid()
      reads this`watched, this`owned, this`content, this`chain, this`secs, this`others, this`sclust, this`objsize, this`sect, this`dirty, buf
      reads this`ix, this`clust, this`fptr
      reads fs`winsect, fs`wflag, fs`store, fs`fat, fs`freeClst, fs`lastClst, fs`fsiFlag, fs.win, fs.disk
    {
      && Core()
      && fptr <= objsize
      && (fptr > 0 ==> At((fptr - 1) / 512))
      && (fptr % 512 != 0 ==> sect != 0 && sect == secs[fptr / 512])
    }

    /** The end of f_open: a file object for an existing chain. */
    constructor (fs: Fatfs, readable: bool, writable: bool, sclust: Word32, size: Word32, ghost chain: Chain, ghost others: set<Chain>)
      requires fs.Valid() && DataOk(fs.g, |fs.store|)
      requires WellFormed(fs.fat, if chain == [] then others else others + {chain}) && chain !in others
      requires sclust == (if chain == [] then 0 else chain[0]) && size <= 512 * Times(fs.g.csize, |chain|)
      requires forall i :: 0 <= i < |chain| ==> !InCluster(fs.g, chain[i], fs.winsect)
      ensures Valid() && fresh(buf)
      ensures this.fs == fs && this.chain == chain && this.others == others && fptr == 0 && owned && watched == []
      ensures this.readable == readable && this.writable == writable && |content| == size && exact == fs.CountOk()
      ensures Clusters(fs.g, chain) && secs == Sectors(fs.g, chain) && OnMedium(content, secs, fs.store)
    {
      this.fs, this.readable, this.writable := fs, readable, writable;
      this.sclust, objsize := sclust, size;
      dirty, modified, sect, fptr, clust := false, false, 0, 0, 0;
      buf := new Byte[512](_ => 0);
      this.chain, this.others, ix, exact, watched, owned := chain, others, 0, fs.CountOk(), [], true;
      new;
      content := OpenedContent(fs.g, fs.fat, Everything(), chain, fs.store, fs.winsect, Buffer(), size);
      secs := Sectors(fs.g, chain);
    }

    /** Write-back of the dirty buffer, as every operation does before it reuses the buffer. */
    method Flush()
      requires DataHeld() && Coherent(fs.store, Buffer()) && buf.Length == 512 && buf != fs.win && buf != fs.disk
      modifies this`dirty, fs`store, fs.disk
      ensures DataHeld() && Coherent(fs.store, Buffer()) && !dirty
      ensures |old(fs.store)| == |fs.store|
      ensures Confined(fs.g, secs, old(fs.store), fs.store)
      ensures if old(dirty) then 512 * sect + 512 <= |fs.store| && fs.store == Patch(old(fs.store), 512 * sect, buf[..]) else fs.store == old(fs.store)
    {
      assert OpenData(0);
      if dirty {
        FlushFacts(fs.g, content, secs, fs.store, Buffer());
        fs.WriteSectors(buf, 0, sect, 1);
        assert buf[0..512] == buf[..];
        dirty := false;
      }
    }

    lemma StillUnseen(w0: nat)
      requires Unseen(fs.g, watched, w0) && InFat1(fs.g, fs.winsect)
      ensures Unseen(fs.g, watched, fs.winsect)
    {
    }

    lemma FatWindowApart(w: nat)
      requires Clusters(fs.g, chain) && secs == Sectors(fs.g, chain) && DataOk(fs.g, |fs.store|) && InFat1(fs.g, w)
      ensures WindowApart(w)
    {
      forall k | 0 <= k < |secs| ensures secs[k] != w {
        var p := SectorsFrom(fs.g, chain, k);
      }
    }

    /** get_fat on behalf of the file. */
    method StatusOf(c: nat) returns (v: nat)
      requires Core() && 2 <= c < |fs.fat|
      modifies fs`wflag, fs`winsect, fs.win, fs.disk
      ensures Core() && v == fs.fat[c] < NONE
    {
      assert OpenCore(0);
      assert OpenData(0);
      ghost var w0 := fs.winsect;
      v := fs.GetFat(c);
      FatWindowApart(fs.winsect);
      StillUnseen(w0);
    }

    /** On a cluster boundary f_read moves to the next cluster of the chain. */
    method FollowChain(csect: nat, ghost p: nat) returns (res: FResult)
      requires Valid() && fptr % 512 == 0 && fptr < objsize
      requires csect < fs.g.csize && fptr / 512 == Times(fs.g.csize, p) + csect
      modifies this`clust, this`ix, fs`wflag, fs`winsect, fs.win, fs.disk
      ensures Core() && At(fptr / 512) && ix == p && res == FrOk
    {
      assert OpenAt(0);
      if fptr > 0 { NextPlace(fs.g, chain, ix, fptr / 512 - 1, p, csect); } else { OnlyStart(fs.g.csize, p, csect); }
      if csect == 0 {
        var clst := ClusterForRead(p);
        if clst < 2 { return FrIntErr; }
        if clst == NONE { return FrDiskErr; }
        EnterCluster(clst, p);
      }
      res := FrOk;
    }

    /** The cluster that begins at the pointer. */
    method ClusterForRead(ghost p: nat) returns (clst: Word32)
      requires Core() && fptr % 512 == 0 && fptr < objsize && fptr / 512 == Times(fs.g.csize, p)
      requires if fptr == 0 then p == 0 else At((fptr - 1) / 512) && p == ix + 1
      modifies fs`wflag, fs`winsect, fs.win, fs.disk
      ensures Core() && AtCluster(fs.g, chain, p, fptr / 512) && clst == chain[p] && 2 <= clst < NONE
    {
      if fptr == 0 {
        clst := FirstCluster();
      } else {
        clst := NextInChain();
      }
    }

    method FirstCluster() returns (clst: Word32)
      requires Core() && 0 < objsize
      ensures AtCluster(fs.g, chain, 0, 0) && clst == chain[0] && 2 <= clst < NONE
    {
      assert OpenCore(0);
      assert OpenChain(0);
      assert OpenData(0);
      StartOfFile(fs.g, chain);
      clst := sclust;
    }

    method NextInChain() returns (clst: Word32)
      requires Core() && 0 < fptr < objsize && At((fptr - 1) / 512)
      requires fptr % 512 == 0 && fptr / 512 == Times(fs.g.csize, ix + 1)
      modifies fs`wflag, fs`winsect, fs.win, fs.disk
      ensures Core() && AtCluster(fs.g, chain, ix + 1, fptr / 512) && clst == chain[ix + 1] && 2 <= clst < NONE
    {
      assert OpenCore(0);
      assert OpenAt(0);
      assert OpenChain(0);
      assert OpenData(0);
      NextCluster(fs.g, fs.fat, Everything(), chain, ix);
      clst := StatusOf(clust);
    }

    /** The file's own sectors are in no other chain. */
    lemma OwnSectorApart(k: nat)
      requires Core() && k < |secs|
      ensures SectApart(fs.g, others, secs[k]) && OwnSect(secs, secs[k])
    {
      assert OpenCore(0);
      assert OpenChain(0) && OpenData(0);
      ChainsApart(fs.g, fs.fat, others, chain, k);
    }

    /** Bring file sector k, which is sector s of the medium, into the buffer. */
    method FillBuffer(s: Word32, ghost k: nat)
      requires Core() && k < |secs| && secs[k] == s && s != 0 && fs.g.database <= s
      modifies this`dirty, this`sect, buf, fs`store, fs.disk
      ensures Core() && sect == s
      ensures |old(fs.store)| == |fs.store| && Confined(fs.g, secs, old(fs.store), fs.store)
    {
      OwnSectorApart(k);
      assert OpenCore(0);
      if sect != s {
        Flush();
        Refill(s, k);
      } else {
        ConfinedSelf(fs.g, secs, fs.store);
      }
    }

    /** Replace the clean buffer by sector s. */
    method Refill(s: Word32, ghost k: nat)
      requires DataHeld() && !dirty && buf.Length == 512 && buf != fs.win && buf != fs.disk
      requires k < |secs| && secs[k] == s && s != 0 && fs.g.database <= s
      modifies this`sect, buf
      ensures DataHeld() && Coherent(fs.store, Buffer()) && sect == s
    {
      assert OpenData(0);
      fs.ReadSectors(buf, 0, s, 1);
      CleanBufferIsFree(content, secs, fs.store, Cache(sect, false, old(buf[..])), Cache(s, false, buf[..]));
      sect := s;
    }

    /** Deliver n bytes of the buffered sector. */
    method CopyOut(buff: array<Byte>, at: nat, n: nat)
      requires Core() && buff != buf && buff != fs.win && buff != fs.disk && at + n <= buff.Length
      requires fptr + n <= objsize && fptr / 512 < |secs| && sect == secs[fptr / 512] && sect != 0 && fptr % 512 + n <= 512
      modifies buff
      ensures Core()
      ensures buff[..] == Patch(old(buff[..]), at, content[fptr..fptr + n])
    {
      assert OpenCore(0);
      assert OpenData(0);
      BufferRead(content, secs, fs.store, Buffer(), fptr, n);
      MemCpy(buff, at, buf, fptr % 512, n);
    }

    /** disk_read of whole sectors, then the dirty buffer over its own sector. */
    method Fetch(buff: array<Byte>, at: nat, s: Word32, cc: nat)
      requires fs.Valid() && buf.Length == 512
      requires buff != buf && buff != fs.win && buff != fs.disk && at + 512 * cc <= buff.Length
      requires FatEnd(fs.g) <= s && 512 * s + 512 * cc <= |fs.store| && !(s <= fs.winsect < s + cc) && s + cc <= 0x1_0000_0000
      modifies buff
      ensures buff[..] == Patch(old(buff[..]), at, Fetched(fs.store, Buffer(), s, cc))
    {
      ghost var b0, raw := buff[..], fs.store[512 * s..512 * s + 512 * cc];
      ReadRaw(buff, at, s, cc);
      Overlay(buff, at, s, cc, b0, raw);
    }

    method ReadRaw(buff: array<Byte>, at: nat, s: Word32, cc: nat)
      requires fs.Valid() && buff != buf && buff != fs.win && buff != fs.disk && at + 512 * cc <= buff.Length
      requires FatEnd(fs.g) <= s && 512 * s + 512 * cc <= |fs.store| && !(s <= fs.winsect < s + cc)
      modifies buff
      ensures buff[..] == Patch(old(buff[..]), at, fs.store[512 * s..512 * s + 512 * cc])
    {
      assert 512 * (s + cc) == 512 * s + 512 * cc;
      fs.ReadSectors(buff, at, s, cc);
    }

    /** A dirty buffer over its own sector among cc sectors from s on. */
    method Overlay(buff: array<Byte>, at: nat, s: Word32, cc: nat, ghost b0: seq<Byte>, ghost raw: seq<Byte>)
      requires buf.Length == 512 && buff != buf && at + 512 * cc <= buff.Length == |b0| && |raw| == 512 * cc && s + cc <= 0x1_0000_0000
      requires buff[..] == Patch(b0, at, raw)
      modifies buff
      ensures buff[..] == Patch(b0, at, if dirty && s <= sect < s + cc then Patch(raw, 512 * (sect - s), buf[..]) else raw)
    {
      Sub32Below(sect, s, cc);
      var d := Sub32(sect, s);
      if dirty && d < cc { CopyOver(buff, at, d, cc, b0, raw); }
    }

    /** The buffer over the d-th of cc sectors. */
    method CopyOver(buff: array<Byte>, at: nat, d: nat, cc: nat, ghost b0: seq<Byte>, ghost raw: seq<Byte>)
      requires buf.Length == 512 && buff != buf && at + 512 * cc <= buff.Length == |b0| && |raw| == 512 * cc && d < cc
      requires buff[..] == Patch(b0, at, raw)
      modifies buff
      ensures buff[..] == Patch(b0, at, Patch(raw, 512 * d, buf[..]))
    {
      PatchPatch(b0, at, raw, 512 * d, buf[..]);
      MemCpy(buff, at + 512 * d, buf, 0, 512);
      assert buf[0..512] == buf[..];
    }

    /** Deliver whole sectors straight from the medium. */
    method ReadDirect(buff: array<Byte>, at: nat, s: Word32, cc: nat)
      requires Core() && buff != buf && buff != fs.win && buff != fs.disk && at + 512 * cc <= buff.Length
      requires fptr % 512 == 0 && fptr + 512 * cc <= objsize && RunAt(secs, fptr / 512, s, cc)
      requires FatEnd(fs.g) <= s && 512 * s + 512 * cc <= |fs.store| && !(s <= fs.winsect < s + cc) && s + cc <= 0x1_0000_0000
      modifies buff
      ensures Core()
      ensures buff[..] == Patch(old(buff[..]), at, content[fptr..fptr + 512 * cc])
    {
      assert OpenCore(0);
      assert OpenData(0);
      DirectRead(content, secs, fs.store, Buffer(), fptr, s, cc);
      Fetch(buff, at, s, cc);
    }

    /** s is the medium's sector number of file sector k, csect sectors into clust. */
    ghost predicate Located(k: nat, s: nat, csect: nat)
      reads this`ix, this`chain, this`clust
    {
      At(k) && clust >= 2 && csect == k - Times(fs.g.csize, ix) && s == ClusterSect(fs.g, clust) + csect
    }

    /** clst2sect plus the place in the cluster. */
    method Locate(csect: nat) returns (s: Word32)
      requires Core() && At(fptr / 512) && fptr / 512 == Times(fs.g.csize, ix) + csect
      ensures s != 0 && fs.g.database <= s && Located(fptr / 512, s, csect)
    {
      assert OpenCore(0);
      assert OpenAt(0);
      assert OpenData(0);
      Clst2SectIsFirst(fs.g, clust);
      ClusterInside(fs.g, clust);
      s := Clst2Sect(fs.g, clust);
      s := s + csect;
    }

    lemma ApartFromRun(k: nat, s: nat, cc: nat, w: nat)
      requires WindowApart(w) && RunAt(secs, k, s, cc) && cc > 0
      ensures !(s <= w < s + cc)
    {
      var j := if s <= w < s + cc then k + (w - s) else k;
      assert secs[j] == s + (j - k);
    }

    /** The rest of the cluster from file sector k on can be transferred at once. */
    lemma RunFacts(k: nat, s: nat, csect: nat, cc: nat)
      requires Core() && Located(k, s, csect) && 0 < cc && csect + cc <= fs.g.csize
      ensures RunAt(secs, k, s, cc) && k < |secs| && secs[k] == s
      ensures FatEnd(fs.g) <= s && 512 * s + 512 * cc <= |fs.store| && s + cc <= 0x1_0000_0000
      ensures !(s <= fs.winsect < s + cc)
      ensures At(k + cc - 1)
    {
      assert OpenCore(0);
      assert OpenAt(0);
      assert OpenData(0);
      ClusterInside(fs.g, clust);
      ClusterRun(fs.g, chain, ix, k, cc);
      ApartFromRun(k, s, cc, fs.winsect);
    }

    /** The place of fptr's sector in its cluster. */
    method Place() returns (csect: nat, ghost p: nat)
      requires Core()
      ensures csect < fs.g.csize && fptr / 512 == Times(fs.g.csize, p) + csect
    {
      assert OpenCore(0);
      assert OpenData(0);
      csect, p := SectorPlace(fs.g, fptr / 512);
    }

    /** f_read reaches the sector at the pointer. */
    method ReadReach() returns (res: FResult, s: Word32, csect: nat)
      requires Valid() && fptr % 512 == 0 && fptr < objsize
      modifies this`clust, this`ix, fs`wflag, fs`winsect, fs.win, fs.disk
      ensures Core() && res == FrOk && s != 0 && fs.g.database <= s && csect < fs.g.csize && Located(fptr / 512, s, csect)
    {
      ghost var p;
      s := 0;
      csect, p := Place();
      res := FollowChain(csect, p);
      if res != FrOk { return; }
      s := Locate(csect);
    }

    /** f_read at a located sector: whole sectors at once, or the sector into the buffer. */
    method ReadAt(buff: array<Byte>, at: nat, btr: nat, s: Word32, csect: nat) returns (cc: nat)
      requires Core() && buff != buf && buff != fs.win && buff != fs.disk
      requires 0 < btr && at + btr <= buff.Length && fptr + btr <= objsize && fptr % 512 == 0
      requires s != 0 && fs.g.database <= s && csect < fs.g.csize && Located(fptr / 512, s, csect)
      modifies this`dirty, this`sect, buf, buff, fs`store, fs.disk
      ensures Core() && At(if cc == 0 then fptr / 512 else fptr / 512 + cc - 1)
      ensures cc == 0 ==> sect != 0 && sect == secs[fptr / 512]
      ensures 512 * cc <= btr && buff[..] == if cc == 0 then old(buff[..]) else Patch(old(buff[..]), at, content[fptr..fptr + 512 * cc])
      ensures |old(fs.store)| == |fs.store| && Confined(fs.g, secs, old(fs.store), fs.store)
    {
      cc := btr / 512;
      if csect + cc > fs.g.csize { cc := fs.g.csize - csect; }
      if cc > 0 {
        RunFacts(fptr / 512, s, csect, cc);
        ReadDirect(buff, at, s, cc);
      } else {
        RunFacts(fptr / 512, s, csect, 1);
        FillBuffer(s, fptr / 512);
      }
    }

    /** Move on over whole sectors. */
    method AdvanceSectors(cc: nat)
      requires Core() && fptr % 512 == 0 && cc > 0 && At(fptr / 512 + cc - 1) && fptr + 512 * cc <= objsize
      modifies this`fptr
      ensures Valid() && fptr == old(fptr) + 512 * cc
    {
      WholeSectors(fptr, cc);
      fptr := fptr + 512 * cc;
    }

    /** Move on inside the buffered sector. */
    method AdvanceBytes(n: nat)
      requires Core() && n > 0 && fptr % 512 + n <= 512 && fptr + n <= objsize
      requires At(fptr / 512) && sect != 0 && sect == secs[fptr / 512]
      modifies this`fptr
      ensures Valid() && fptr == old(fptr) + n
    {
      SameSector(fptr, n - 1);
      fptr := fptr + n;
    }

    /** f_read on a sector boundary. */
    method ReadAligned(buff: array<Byte>, at: nat, btr: nat) returns (res: FResult, cc: nat)
      requires Valid() && buff != buf && buff != fs.win && buff != fs.disk
      requires 0 < btr && at + btr <= buff.Length && fptr + btr <= objsize && fptr % 512 == 0
      modifies this`clust, this`ix, this`dirty, this`sect, this`fptr, buf, buff, fs`store, fs`wflag, fs`winsect, fs.win, fs.disk
      ensures res == FrOk && 512 * cc <= btr && fptr == old(fptr) + 512 * cc
      ensures cc > 0 ==> Valid() && buff[..] == Patch(old(buff[..]), at, content[old(fptr)..fptr])
      ensures cc == 0 ==> Core() && At(fptr / 512) && sect != 0 && sect == secs[fptr / 512] && buff[..] == old(buff[..])
      ensures |old(fs.store)| == |fs.store| && Confined(fs.g, secs, old(fs.store), fs.store)
    {
      var s, csect;
      cc := 0;
      res, s, csect := ReadReach();
      if res != FrOk { return; }
      cc := ReadAt(buff, at, btr, s, csect);
      if cc > 0 { AdvanceSectors(cc); }
    }

    /** One turn of f_read's loop. */
    method ReadStep(buff: array<Byte>, at: nat, btr: nat) returns (res: FResult, rcnt: nat)
      requires Valid() && buff != buf && buff != fs.win && buff != fs.disk
      requires 0 < btr && at + btr <= buff.Length && fptr + btr <= objsize
      modifies this`clust, this`ix, this`dirty, this`sect, this`fptr, buf, buff, fs`store, fs`wflag, fs`winsect, fs.win, fs.disk
      ensures Valid() && res == FrOk && 0 < rcnt <= btr && fptr == old(fptr) + rcnt
      ensures buff[..] == Patch(old(buff[..]), at, content[old(fptr)..fptr])
      ensures |old(fs.store)| == |fs.store| && Confined(fs.g, secs, old(fs.store), fs.store)
    {
      if fptr % 512 == 0 {
        var cc;
        res, cc := ReadAligned(buff, at, btr);
        if cc > 0 { return res, 512 * cc; }
        if res != FrOk { return; }
      } else {
        SameSectorBack(fptr);
      }
      rcnt := ReadBytes(buff, at, btr);
      res := FrOk;
    }

    /** f_read inside a sector: up to its end. */
    method ReadBytes(buff: array<Byte>, at: nat, btr: nat) returns (rcnt: nat)
      requires Core() && buff != buf && buff != fs.win && buff != fs.disk
      requires 0 < btr && at + btr <= buff.Length && fptr + btr <= objsize
      requires At(fptr / 512) && sect != 0 && sect == secs[fptr / 512]
      modifies this`fptr, buff
      ensures Valid() && 0 < rcnt <= btr && fptr == old(fptr) + rcnt
      ensures buff[..] == Patch(old(buff[..]), at, content[old(fptr)..fptr])
    {
      rcnt := 512 - fptr % 512;
      if rcnt > btr { rcnt := btr; }
      CopyOut(buff, at, rcnt);
      AdvanceBytes(rcnt);
    }

    method FRead(buff: array<Byte>, count: nat) returns (res: FResult, br: nat)
      requires Valid() && buff != buf && buff != fs.win && buff != fs.disk && count <= buff.Length
      modifies this`clust, this`ix, this`dirty, this`sect, this`fptr, buf, buff, fs`store, fs`wflag, fs`winsect, fs.win, fs.disk
      ensures Valid()
      ensures !readable ==> res == FrDenied && br == 0 && fptr == old(fptr) && buff[..] == old(buff[..]) && fs.store == old(fs.store)
      ensures readable ==> res == FrOk && br == if count <= objsize - old(fptr) then count else objsize - old(fptr)
      ensures readable ==> fptr == old(fptr) + br && buff[..] == Patch(old(buff[..]), 0, content[old(fptr)..fptr])
      ensures |old(fs.store)| == |fs.store| && Confined(fs.g, secs, old(fs.store), fs.store)
    {
      br := 0;
      if !readable { return FrDenied, 0; }
      var btr := count;
      var remain := objsize - fptr;
      if btr > remain { btr := remain; }
      ghost var b0, f0, goal := buff[..], fptr, fptr + btr;
      PatchNothing(b0, 0);
      while btr != 0
        invariant Valid() && fptr == f0 + br && fptr + btr == goal
        invariant 0 <= br && 0 <= btr && br + btr <= |b0| == buff.Length && buff[..] == Patch(b0, 0, content[f0..fptr])
        invariant |old(fs.store)| == |fs.store| && Confined(fs.g, secs, old(fs.store), fs.store)
      {
        ghost var f1, s1 := fptr, fs.store;
        var rcnt;
        res, rcnt := ReadStep(buff, br, btr);
        if res != FrOk { return; }
        PatchOn(b0, content, f0, f1, fptr);
        ConfinedTrans(fs.g, secs, old(fs.store), s1, fs.store);
        btr := btr - rcnt;
        br := br + rcnt;
      }
      res := FrOk;
    }

    /** Clusters beyond the first n are there only because byte p - 1 needs them. */
    ghost predicate Tight(n: nat, p: nat)
      reads this`chain
    {
      |chain| > n ==> 512 * Times(fs.g.csize, |chain| - 1) < p
    }

    /** Since the chain had n clusters and the count was free0, each new cluster has lowered a known count by one. */
    ghost predicate Counted(n: nat, free0: nat)
      reads this`chain, fs`freeClst
    {
      |chain| >= n && if free0 <= fs.g.nFatent - 2 then fs.freeClst + (|chain| - n) == free0 else fs.freeClst == free0
    }

    /** create_chain: the FAT may change, the file's sectors do not. */
    method CallCreateChain(c: nat) returns (r: nat)
      requires DataHeld() && Coherent(fs.store, Buffer()) && buf.Length == 512 && buf != fs.win && buf != fs.disk
      requires c == 0 || Linked(fs.fat, c)
      requires !HasBadLink(fs.fat)
      modifies fs`wflag, fs`winsect, fs`store, fs`fat, fs`lastClst, fs`freeClst, fs`fsiFlag, fs.win, fs.disk
      ensures DataHeld() && Coherent(fs.store, Buffer()) && SameOutside(fs.g, old(fs.store), fs.store)
      ensures r == 0 || 2 <= r < NONE
      ensures c != 0 && old(fs.fat)[c] < |old(fs.fat)| ==> r == old(fs.fat)[c] && fs.fat == old(fs.fat)
      ensures fs.fat == old(fs.fat) ==> fs.freeClst == old(fs.freeClst)
      ensures c == 0 || old(fs.fat)[c] >= |old(fs.fat)| ==>
        && (r == 0 ==> fs.fat == old(fs.fat) && NoRoom())
        && (r >= 2 ==> fs.freeClst == if old(fs.freeClst) <= fs.g.nFatent - 2 then old(fs.freeClst) - 1 else old(fs.freeClst))
        && (r >= 2 ==> InFat1(fs.g, fs.winsect) && Created(old(fs.fat), fs.fat, c, r, EntryMask(fs.g.fsType)))
    {
      assert OpenData(0);
      ghost var s0, w0 := fs.store, fs.winsect;
      TrimFacts(fs.g.fsType, 0);
      r := fs.CreateChain(c);
      if fs.winsect != w0 {
        FatWindowApart(fs.winsect);
        StillUnseen(w0);
      }
      StoreFrame(content, secs, s0, fs.store, Buffer(), fs.g, chain);
    }

    /** create_chain at cluster i of the file's chain, or for its first cluster: follow the chain or stretch it. */
    method Stretch(c: nat, ghost i: nat) returns (r: nat)
      requires Core() && if chain == [] then c == 0 else i < |chain| && c == chain[i]
      modifies this`chain, this`secs, this`sclust
      modifies fs`wflag, fs`winsect, fs`store, fs`fat, fs`lastClst, fs`freeClst, fs`fsiFlag, fs.win, fs.disk
      ensures Core() && SameOutside(fs.g, old(fs.store), fs.store)
      ensures r == 0 || 2 <= r < NONE
      ensures i + 1 < |old(chain)| ==> 2 <= r == old(chain)[i + 1] && chain == old(chain) && secs == old(secs) && fs.fat == old(fs.fat)
      ensures i + 1 >= |old(chain)| && r == 0 ==>
        chain == old(chain) && secs == old(secs) && fs.fat == old(fs.fat) && NoRoom()
      ensures i + 1 >= |old(chain)| && r >= 2 ==>
        chain == old(chain) + [r] && secs == old(secs) + Run(ClusterSect(fs.g, r), fs.g.csize)
      ensures Counted(|old(chain)|, old(fs.freeClst))
    {
      assert OpenCore(0);
      ChainLinks(i);
      ghost var fat0, grows := fs.fat, i + 1 >= |chain|;
      r := CallCreateChain(c);
      if sclust == 0 { sclust := r; }
      if grows && r >= 2 { Grow(c, r, fat0); }
    }

    lemma ChainLinks(i: nat)
      requires Core() && (chain == [] || i < |chain|)
      ensures chain != [] ==> Linked(fs.fat, chain[i])
      ensures chain != [] ==> if i + 1 < |chain| then fs.fat[chain[i]] == chain[i + 1] else fs.fat[chain[i]] >= |fs.fat|
      ensures !HasBadLink(fs.fat) && |fs.fat| == fs.g.nFatent
      ensures WellFormed(fs.fat, Everything()) && chain !in others
      ensures if chain == [] then sclust == 0 else 2 <= sclust == chain[0] < NONE
    {
      assert OpenCore(0);
      assert OpenChain(0) && OpenData(0);
      if chain != [] { assert IsChain(fs.fat, chain); }
      NoBadLinks(fs.fat, Everything());
    }

    /** The file's chain and sector list after its chain grew by r. */
    ghost method Adopt(c: nat, r: nat, fat0: Fat)
      requires DataHeld() && InFat1(fs.g, fs.winsect)
      requires |fat0| == fs.g.nFatent && chain !in others
      requires WellFormed(fat0, if chain == [] then others else others + {chain})
      requires Created(fat0, fs.fat, c, r, EntryMask(fs.g.fsType))
      requires c == if chain == [] then 0 else chain[|chain| - 1]
      requires sclust == if chain == [] then r else chain[0]
      modifies this`chain, this`secs
      ensures DataHeld() && ChainOk() && chain == old(chain) + [r] && secs == old(secs) + Run(ClusterSect(fs.g, r), fs.g.csize)
    {
      assert OpenData(0);
      StretchedFile(fs.g, fat0, fs.fat, others, chain, c, r, |fs.store|);
      HoldsMoreSecs(content, secs, Run(ClusterSect(fs.g, r), fs.g.csize), fs.store, Buffer());
      chain := chain + [r];
      secs := Sectors(fs.g, chain);
      FatWindowApart(fs.winsect);
    }

    /** The same; the buffer's own sector stays one. */
    ghost method Grow(c: nat, r: nat, fat0: Fat)
      requires DataHeld() && InFat1(fs.g, fs.winsect) && BufferOk()
      requires |fat0| == fs.g.nFatent && chain !in others
      requires WellFormed(fat0, if chain == [] then others else others + {chain})
      requires Created(fat0, fs.fat, c, r, EntryMask(fs.g.fsType))
      requires c == if chain == [] then 0 else chain[|chain| - 1]
      requires sclust == if chain == [] then r else chain[0]
      modifies this`chain, this`secs
      ensures DataHeld() && ChainOk() && BufferOk() && chain == old(chain) + [r] && secs == old(secs) + Run(ClusterSect(fs.g, r), fs.g.csize)
    {
      ghost var secs0 := secs;
      Adopt(c, r, fat0);
      if owned { OwnSectGrows(secs0, secs, sect); }
    }

    /** The first cluster, created if there is none yet; 0 if there is no free cluster. */
    method StartCluster() returns (clst: nat)
      requires Core()
      modifies this`chain, this`secs, this`sclust
      modifies fs`wflag, fs`winsect, fs`store, fs`fat, fs`lastClst, fs`freeClst, fs`fsiFlag, fs.win, fs.disk
      ensures Core() && SameOutside(fs.g, old(fs.store), fs.store)
      ensures old(chain) <= chain && old(secs) <= secs
      ensures clst == 0 ==> chain == old(chain) == [] && secs == old(secs) == []
      ensures clst == 0 ==> fs.fat == old(fs.fat) && NoRoom()
      ensures old(chain) != [] ==> clst != 0 && chain == old(chain) && secs == old(secs) && fs.fat == old(fs.fat)
      ensures clst != 0 ==> chain != [] && clst == chain[0] && 2 <= clst < NONE
      ensures (|chain| <= 1 || chain == old(chain)) && Counted(|old(chain)|, old(fs.freeClst))
    {
      ChainLinks(0);
      clst := sclust;
      if clst == 0 {
        clst := Stretch(0, 0);
        EndOfSecs();
      }
    }

    /** The cluster after clust, created if the chain ends there; 0 if there is no free cluster. */
    method NextForWrite(ghost p: nat) returns (clst: nat)
      requires Core() && fptr % 512 == 0 && fptr > 0 && At((fptr - 1) / 512) && p == ix + 1 && fptr / 512 == Times(fs.g.csize, p)
      modifies this`chain, this`secs, this`sclust
      modifies fs`wflag, fs`winsect, fs`store, fs`fat, fs`lastClst, fs`freeClst, fs`fsiFlag, fs.win, fs.disk
      ensures Core() && SameOutside(fs.g, old(fs.store), fs.store)
      ensures old(chain) <= chain && old(secs) <= secs
      ensures clst == 0 ==> chain == old(chain) && secs == old(secs) && |secs| <= fptr / 512
      ensures clst == 0 ==> fs.fat == old(fs.fat) && NoRoom()
      ensures clst != 0 ==> AtCluster(fs.g, chain, p, fptr / 512) && clst == chain[p] && 2 <= clst < NONE
      ensures Tight(|old(chain)|, fptr + 1) && Counted(|old(chain)|, old(fs.freeClst))
    {
      assert OpenAt(0);
      clst := Stretch(clust, ix);
      EndOfSecs();
      if clst == 0 { TimesMonotone(fs.g.csize, |chain|, p); }
    }

    /** On a cluster boundary f_write follows the chain or stretches it; `full` if there is no free cluster. */
    method ReachCluster(csect: nat, ghost p: nat) returns (full: bool)
      requires Valid() && fptr % 512 == 0
      requires csect < fs.g.csize && fptr / 512 == Times(fs.g.csize, p) + csect
      modifies this`clust, this`ix, this`chain, this`secs, this`sclust
      modifies fs`wflag, fs`winsect, fs`store, fs`fat, fs`lastClst, fs`freeClst, fs`fsiFlag, fs.win, fs.disk
      ensures Core() && SameOutside(fs.g, old(fs.store), fs.store)
      ensures old(chain) <= chain && old(secs) <= secs
      ensures full ==> Valid() && NoRoom()
      ensures full ==> fptr / 512 >= |secs|
      ensures !full ==> At(fptr / 512) && ix == p
      ensures Tight(|old(chain)|, fptr + 1) && Counted(|old(chain)|, old(fs.freeClst)) && (full ==> |chain| == |old(chain)|)
    {
      assert OpenAt(0);
      if fptr > 0 { NextPlace(fs.g, chain, ix, fptr / 512 - 1, p, csect); } else { OnlyStart(fs.g.csize, p, csect); }
      full := false;
      if csect == 0 {
        var clst := ClusterForWrite(p);
        full := clst == 0;
        if !full { EnterCluster(clst, p); }
      }
    }

    method EnterCluster(clst: Word32, ghost p: nat)
      modifies this`clust, this`ix
      ensures clust == clst && ix == p
    {
      clust := clst;
      ix := p;
    }

    /** The cluster that begins at the pointer; 0 if it does not exist and there is no free cluster. */
    method ClusterForWrite(ghost p: nat) returns (clst: nat)
      requires Core() && fptr % 512 == 0 && fptr / 512 == Times(fs.g.csize, p)
      requires if fptr == 0 then p == 0 else At((fptr - 1) / 512) && p == ix + 1
      modifies this`chain, this`secs, this`sclust
      modifies fs`wflag, fs`winsect, fs`store, fs`fat, fs`lastClst, fs`freeClst, fs`fsiFlag, fs.win, fs.disk
      ensures Core() && SameOutside(fs.g, old(fs.store), fs.store)
      ensures old(chain) <= chain && old(secs) <= secs
      ensures clst == 0 ==> chain == old(chain) && secs == old(secs) && |secs| <= fptr / 512
      ensures clst == 0 ==> fs.fat == old(fs.fat) && NoRoom()
      ensures clst != 0 ==> AtCluster(fs.g, chain, p, fptr / 512) && clst == chain[p] && 2 <= clst < NONE
      ensures Tight(|old(chain)|, fptr + 1) && Counted(|old(chain)|, old(fs.freeClst))
    {
      if fptr == 0 {
        clst := StartCluster();
      } else {
        clst := NextForWrite(p);
      }
    }

    lemma EndOfSecs()
      requires Core()
      ensures |secs| == Times(fs.g.csize, |chain|)
    {
      assert OpenCore(0);
      assert OpenData(0);
    }

    /** f_write's end of a turn: the size is stretched to the new pointer. */
    method GrowSize(n: nat)
      requires fptr + n <= 0xFFFF_FFFF
      modifies this`objsize
      ensures objsize == if fptr + n > old(objsize) then fptr + n else old(objsize)
    {
      objsize := if fptr + n > objsize then fptr + n else objsize;
    }

    /** disk_write of whole sectors, and the buffer refilled if they include its sector. */
    method Send(buff: array<Byte>, at: nat, s: Word32, cc: nat)
      requires fs.Valid() && buf.Length == 512 && !dirty && buf != fs.win && buf != fs.disk
      requires buff != buf && buff != fs.win && buff != fs.disk && at + 512 * cc <= buff.Length
      requires FatEnd(fs.g) <= s && 512 * s + 512 * cc <= |fs.store| && !(s <= fs.winsect < s + cc) && s + cc <= 0x1_0000_0000
      modifies this`dirty, buf, fs`store, fs.disk
      ensures fs.Valid() && |fs.store| == |old(fs.store)|
      ensures fs.store == Patch(old(fs.store), 512 * s, buff[at..at + 512 * cc])
      ensures Buffer() == Refilled(old(Buffer()), s, buff[at..at + 512 * cc])
    {
      Sub32Below(sect, s, cc);
      fs.WriteSectors(buff, at, s, cc);
      var d := Sub32(sect, s);
      if d < cc {
        CopyBack(buff, at, d, cc);
        dirty := false;
      }
    }

    /** The d-th of cc sectors into the buffer. */
    method CopyBack(buff: array<Byte>, at: nat, d: nat, cc: nat)
      requires buf.Length == 512 && buff != buf && at + 512 * cc <= buff.Length && d < cc
      modifies buf
      ensures buf[..] == buff[at..at + 512 * cc][512 * d..512 * d + 512]
    {
      var o := 512 * d;
      ghost var all, data := buff[..], buff[at..at + 512 * cc];
      PatchAll(buf[..], data[o..o + 512]);
      assert data == all[at..at + 512 * cc];
      SliceOfSlice(all, at, 512 * cc, o, 512);
      assert buff[at + o..at + o + 512] == all[at + o..at + o + 512];
      MemCpy(buf, 0, buff, at + o, 512);
    }

    /** The same with what it means for the content. */
    method SendContent(buff: array<Byte>, at: nat, s: Word32, cc: nat)
      requires Core() && !dirty && buff != buf && buff != fs.win && buff != fs.disk && at + 512 * cc <= buff.Length
      requires fptr % 512 == 0 && fptr <= objsize && RunAt(secs, fptr / 512, s, cc)
      requires FatEnd(fs.g) <= s && 512 * s + 512 * cc <= |fs.store| && !(s <= fs.winsect < s + cc) && s + cc <= 0x1_0000_0000
      modifies this`dirty, this`content, buf, fs`store, fs.disk
      ensures DataHeld() && Coherent(fs.store, Buffer())
      ensures content == Overwrite(old(content), fptr, buff[at..at + 512 * cc])
      ensures |fs.store| == |old(fs.store)| && Confined(fs.g, secs, old(fs.store), fs.store)
    {
      assert OpenCore(0);
      assert OpenData(0);
      ghost var data := buff[at..at + 512 * cc];
      DirectWriteFacts(fs.g, content, secs, fs.store, Buffer(), fptr, s, cc, data);
      Send(buff, at, s, cc);
      content := Overwrite(content, fptr, data);
    }

    /** Whole sectors straight to the medium. */
    method WriteDirect(buff: array<Byte>, at: nat, s: Word32, cc: nat)
      requires Core() && !dirty && buff != buf && buff != fs.win && buff != fs.disk && at + 512 * cc <= buff.Length
      requires fptr % 512 == 0 && fptr <= objsize && fptr + 512 * cc <= 0xFFFF_FFFF && cc > 0
      requires RunAt(secs, fptr / 512, s, cc) && At(fptr / 512 + cc - 1)
      requires FatEnd(fs.g) <= s && 512 * s + 512 * cc <= |fs.store| && !(s <= fs.winsect < s + cc) && s + cc <= 0x1_0000_0000
      modifies this`dirty, this`content, this`fptr, this`objsize, buf, fs`store, fs.disk
      ensures Valid() && fptr == old(fptr) + 512 * cc
      ensures content == Overwrite(old(content), old(fptr), buff[at..at + 512 * cc])
      ensures |fs.store| == |old(fs.store)| && Confined(fs.g, secs, old(fs.store), fs.store)
    {
      assert OpenCore(0);
      SendContent(buff, at, s, cc);
      GrowSize(512 * cc);
      AdvanceSectors(cc);
    }

    /** The buffer may be written at fptr: it has the sector, or fptr is on the growing edge. */
    ghost predicate Writable()
      reads this`content, this`secs, this`fptr, this`sect, this`dirty, buf, fs`store
    {
      && fptr <= |content| && fptr / 512 < |secs| && sect != 0 && sect == secs[fptr / 512]
      && (Coherent(fs.store, Buffer()) || (fptr == |content| && fptr % 512 == 0 && !dirty))
    }

    /** Move the buffer to file sector k, which is read unless it is on the growing edge. */
    method LoadForWrite(s: Word32)
      requires Core() && !dirty && fptr <= objsize && fptr % 512 == 0 && At(fptr / 512)
      requires fptr / 512 < |secs| && secs[fptr / 512] == s && s != 0 && fs.g.database <= s
      modifies this`sect, buf
      ensures Ready() && !dirty && sect == s
    {
      assert OpenCore(0);
      assert OpenData(0);
      OwnSectorApart(fptr / 512);
      if sect != s && fptr < objsize {
        fs.ReadSectors(buf, 0, s, 1);
      }
      sect := s;
      CleanBufferIsFree(content, secs, fs.store, old(Buffer()), Buffer());
    }

    /** Copy n bytes into the buffered sector. */
    method FillContent(buff: array<Byte>, at: nat, n: nat)
      requires DataHeld() && Writable() && buf.Length == 512 && buf != fs.win && buf != fs.disk
      requires buff != buf && at + n <= buff.Length && fptr % 512 + n <= 512
      modifies this`dirty, this`content, buf
      ensures DataHeld() && dirty && Coherent(fs.store, Buffer())
      ensures content == Overwrite(old(content), fptr, buff[at..at + n])
    {
      assert OpenData(0);
      ghost var data := buff[at..at + n];
      BufferWrite(content, secs, fs.store, Buffer(), fptr, data);
      MemCpy(buf, fptr % 512, buff, at, n);
      dirty := true;
      content := Overwrite(content, fptr, data);
    }

    /** The partial-sector end of a turn of f_write. */
    method CopyIn(buff: array<Byte>, at: nat, n: nat)
      requires Ready() && buff != buf && at + n <= buff.Length && 0 < n && fptr % 512 + n <= 512 && fptr + n <= 0xFFFF_FFFF
      modifies this`dirty, this`content, this`fptr, this`objsize, buf
      ensures Valid() && fptr == old(fptr) + n
      ensures content == Overwrite(old(content), old(fptr), buff[at..at + n])
    {
      assert OpenCore(0);
      FillContent(buff, at, n);
      EndInSector(fptr, n, |secs|);
      GrowSize(n);
      AdvanceBytes(n);
    }

    /** Ready for CopyIn. */
    ghost predicate Ready()
      reads this`watched, this`owned, this`content, this`chain, this`secs, this`others, this`sclust, this`objsize, this`sect, this`dirty, buf
      reads this`ix, this`clust, this`fptr
      reads fs`winsect, fs`wflag, fs`store, fs`fat, fs`freeClst, fs`lastClst, fs`fsiFlag, fs.win, fs.disk
    {
      && fptr <= objsize == |content| <= 512 * |secs|
      && 1 <= fs.g.csize <= 128 && At(fptr / 512) && SectApart(fs.g, others, sect) && BufferOk()
      && forall k {:trigger OpenCore(k)} :: OpenCore(k) ==>
           && buf.Length == 512 && buf != fs.win && buf != fs.disk
           && DataHeld()
           && ChainOk()
           && Writable()
    }

    /** f_write reaches the sector at the pointer with a clean buffer. */
    method WriteReach() returns (full: bool, s: Word32, csect: nat)
      requires Valid() && fptr % 512 == 0
      modifies this`clust, this`ix, this`chain, this`secs, this`sclust, this`dirty
      modifies fs`wflag, fs`winsect, fs`store, fs`fat, fs`lastClst, fs`freeClst, fs`fsiFlag, fs.win, fs.disk
      ensures Core() && old(chain) <= chain && old(secs) <= secs
      ensures |fs.store| == |old(fs.store)| && Confined(fs.g, secs, old(fs.store), fs.store)
      ensures full ==> Valid() && NoRoom()
      ensures full ==> fptr / 512 >= |secs|
      ensures !full ==> !dirty && s != 0 && fs.g.database <= s && csect < fs.g.csize && Located(fptr / 512, s, csect)
      ensures Tight(|old(chain)|, fptr + 1) && Counted(|old(chain)|, old(fs.freeClst)) && (full ==> |chain| == |old(chain)|)
    {
      ghost var p;
      s := 0;
      csect, p := Place();
      full := ReachCluster(csect, p);
      FatsOutside(old(fs.store));
      if full { return; }
      ghost var s1 := fs.store;
      FlushFile();
      ConfinedTrans(fs.g, secs, old(fs.store), s1, fs.store);
      s := Locate(csect);
    }

    /** Write-back in a consistent file. */
    method FlushFile()
      requires Core()
      modifies this`dirty, fs`store, fs.disk
      ensures Core() && !dirty && |old(fs.store)| == |fs.store| && Confined(fs.g, secs, old(fs.store), fs.store)
    {
      assert OpenCore(0);
      Flush();
    }

    lemma FatsOutside(s0: seq<Byte>)
      requires Core() && SameOutside(fs.g, s0, fs.store)
      ensures Confined(fs.g, secs, s0, fs.store)
    {
      assert OpenCore(0);
      FatsAreOutside(s0);
    }

    lemma FatsAreOutside(s0: seq<Byte>)
      requires DataHeld() && SameOutside(fs.g, s0, fs.store)
      ensures Confined(fs.g, secs, s0, fs.store)
    {
      assert OpenData(0);
    }

    /** f_write at a located sector: whole sectors at once, or the buffer prepared for the sector. */
    method WriteAt(buff: array<Byte>, at: nat, btw: nat, s: Word32, csect: nat) returns (cc: nat)
      requires Core() && !dirty && buff != buf && buff != fs.win && buff != fs.disk
      requires 0 < btw && at + btw <= buff.Length && fptr + btw <= 0xFFFF_FFFF && fptr % 512 == 0 && fptr <= objsize
      requires s != 0 && fs.g.database <= s && csect < fs.g.csize && Located(fptr / 512, s, csect)
      modifies this`dirty, this`content, this`fptr, this`objsize, this`sect, buf, fs`store, fs.disk
      ensures |fs.store| == |old(fs.store)| && Confined(fs.g, secs, old(fs.store), fs.store)
      ensures 512 * cc <= btw
      ensures cc > 0 ==> Valid() && fptr == old(fptr) + 512 * cc && Wrote(content, old(content), old(fptr), buff[at..at + 512 * cc])
      ensures cc == 0 ==> Ready() && fptr == old(fptr) && content == old(content)
    {
      cc := btw / 512;
      if csect + cc > fs.g.csize { cc := fs.g.csize - csect; }
      if cc > 0 {
        RunFacts(fptr / 512, s, csect, cc);
        WriteDirect(buff, at, s, cc);
      } else {
        RunFacts(fptr / 512, s, csect, 1);
        LoadForWrite(s);
      }
    }

    /** f_write in a sector it has reached: whole sectors, or the buffer prepared for the rest. */
    method WriteReached(buff: array<Byte>, at: nat, btw: nat, s: Word32, csect: nat, ghost s0: seq<Byte>, ghost data: seq<Byte>) returns (cc: nat)
      requires Core() && !dirty && buff != buf && buff != fs.win && buff != fs.disk && buff[..] == data
      requires 0 < btw && at + btw <= buff.Length && fptr + btw <= 0xFFFF_FFFF && fptr % 512 == 0 && fptr <= objsize
      requires s != 0 && fs.g.database <= s && csect < fs.g.csize && Located(fptr / 512, s, csect)
      requires |fs.store| == |s0| && Confined(fs.g, secs, s0, fs.store)
      modifies this`dirty, this`content, this`fptr, this`objsize, this`sect, buf, fs`store, fs.disk
      ensures |fs.store| == |s0| && Confined(fs.g, secs, s0, fs.store)
      ensures 512 * cc <= btw
      ensures cc > 0 ==> Valid() && fptr == old(fptr) + 512 * cc && Wrote(content, old(content), old(fptr), data[at..at + 512 * cc])
      ensures cc == 0 ==> Ready() && fptr == old(fptr) && content == old(content)
    {
      ghost var s1 := fs.store;
      cc := WriteAt(buff, at, btw, s, csect);
      ConfinedTrans(fs.g, secs, s0, s1, fs.store);
      assert buff[at..at + 512 * cc] == data[at..at + 512 * cc];
    }

    /** One turn of f_write's loop; wcnt is 0 when the volume is full. */
    method WriteStep(buff: array<Byte>, at: nat, btw: nat, ghost data: seq<Byte>) returns (wcnt: nat)
      requires Valid() && buff != buf && buff != fs.win && buff != fs.disk && buff[..] == data
      requires 0 < btw && at + btw <= buff.Length && fptr + btw <= 0xFFFF_FFFF
      modifies this`clust, this`ix, this`chain, this`secs, this`sclust, this`dirty, this`content, this`fptr, this`objsize, this`sect
      modifies buf, fs`wflag, fs`winsect, fs`store, fs`fat, fs`lastClst, fs`freeClst, fs`fsiFlag, fs.win, fs.disk
      ensures Valid() && wcnt <= btw && fptr == old(fptr) + wcnt
      ensures Wrote(content, old(content), old(fptr), data[at..at + wcnt])
      ensures old(chain) <= chain && old(secs) <= secs
      ensures |fs.store| == |old(fs.store)| && Confined(fs.g, secs, old(fs.store), fs.store)
      ensures wcnt == 0 ==> NoRoom() && fptr / 512 >= |secs|
      ensures Tight(|old(chain)|, fptr) && Counted(|old(chain)|, old(fs.freeClst))
    {
      if fptr % 512 == 0 {
        wcnt := StepAligned(buff, at, btw, data);
      } else {
        ReadyInside();
        wcnt := WriteBytes(buff, at, btw, data);
        ConfinedSelf(fs.g, secs, fs.store);
      }
    }

    /** One turn of f_write's loop on a sector boundary. */
    method StepAligned(buff: array<Byte>, at: nat, btw: nat, ghost data: seq<Byte>) returns (wcnt: nat)
      requires Valid() && buff != buf && buff != fs.win && buff != fs.disk && buff[..] == data
      requires 0 < btw && at + btw <= buff.Length && fptr + btw <= 0xFFFF_FFFF && fptr % 512 == 0
      modifies this`clust, this`ix, this`chain, this`secs, this`sclust, this`dirty, this`content, this`fptr, this`objsize, this`sect
      modifies buf, fs`wflag, fs`winsect, fs`store, fs`fat, fs`lastClst, fs`freeClst, fs`fsiFlag, fs.win, fs.disk
      ensures Valid() && wcnt <= btw && fptr == old(fptr) + wcnt
      ensures Wrote(content, old(content), old(fptr), data[at..at + wcnt])
      ensures old(chain) <= chain && old(secs) <= secs
      ensures |fs.store| == |old(fs.store)| && Confined(fs.g, secs, old(fs.store), fs.store)
      ensures wcnt == 0 ==> NoRoom() && fptr / 512 >= |secs|
      ensures Tight(|old(chain)|, fptr) && Counted(|old(chain)|, old(fs.freeClst))
    {
      ghost var s0 := fs.store;
      var full, s, csect := WriteReach();
      if full {
        wcnt := 0;
        WroteNothing(content, fptr, data[at..at + wcnt]);
      } else {
        wcnt := WriteRest(buff, at, btw, s, csect, s0, data);
      }
    }

    /** f_write in a sector it has reached: whole sectors, or up to the end of the sector. */
    method WriteRest(buff: array<Byte>, at: nat, btw: nat, s: Word32, csect: nat, ghost s0: seq<Byte>, ghost data: seq<Byte>) returns (wcnt: nat)
      requires Core() && !dirty && buff != buf && buff != fs.win && buff != fs.disk && buff[..] == data
      requires 0 < btw && at + btw <= buff.Length && fptr + btw <= 0xFFFF_FFFF && fptr % 512 == 0 && fptr <= objsize
      requires s != 0 && fs.g.database <= s && csect < fs.g.csize && Located(fptr / 512, s, csect)
      requires |fs.store| == |s0| && Confined(fs.g, secs, s0, fs.store)
      modifies this`dirty, this`content, this`fptr, this`objsize, this`sect, buf, fs`store, fs.disk
      ensures Valid() && 0 < wcnt <= btw && fptr == old(fptr) + wcnt && Wrote(content, old(content), old(fptr), data[at..at + wcnt])
      ensures |fs.store| == |s0| && Confined(fs.g, secs, s0, fs.store)
    {
      var cc := WriteReached(buff, at, btw, s, csect, s0, data);
      wcnt := 512 * cc;
      if cc == 0 { wcnt := WriteBytes(buff, at, btw, data); }
    }

    lemma ReadyInside()
      requires Valid() && fptr % 512 != 0
      ensures Ready()
    {
      assert OpenCore(0);
      SameSectorBack(fptr);
    }

    /** f_write inside a sector: up to its end. */
    method WriteBytes(buff: array<Byte>, at: nat, btw: nat, ghost data: seq<Byte>) returns (wcnt: nat)
      requires Ready() && buff != buf && buff[..] == data && 0 < btw && at + btw <= buff.Length && fptr + btw <= 0xFFFF_FFFF
      modifies this`dirty, this`content, this`fptr, this`objsize, buf
      ensures Valid() && 0 < wcnt <= btw && fptr == old(fptr) + wcnt
      ensures Wrote(content, old(content), old(fptr), data[at..at + wcnt])
    {
      assert OpenCore(0);
      wcnt := 512 - fptr % 512;
      if wcnt > btw { wcnt := btw; }
      CopyIn(buff, at, wcnt);
      assert buff[at..at + wcnt] == data[at..at + wcnt];
    }

    /** How many of `count` bytes f_write tries to write: a FAT file stays below 4 GiB. */
    function Clipped(count: nat): nat
      reads this`fptr
    {
      if (fptr + count) % 0x1_0000_0000 < fptr then 0xFFFF_FFFF - fptr else count
    }

    /** n bytes of a write have been done, which began with content c0 at f0, on the disk image s0 with the chain chain0. */
    ghost predicate Writing(data: seq<Byte>, c0: seq<Byte>, f0: nat, s0: seq<Byte>, chain0: Chain, free0: nat, n: nat)
      reads this`watched, this`owned, this`content, this`chain, this`secs, this`others, this`sclust, this`objsize, this`sect, this`dirty, buf
      reads this`ix, this`clust, this`fptr
      reads fs`winsect, fs`wflag, fs`store, fs`fat, fs`freeClst, fs`lastClst, fs`fsiFlag, fs.win, fs.disk
    {
      forall k {:trigger OpenLoop(k)} :: OpenLoop(k) ==>
        && Valid() && chain0 <= chain && fptr == f0 + n && Tight(|chain0|, fptr) && Counted(|chain0|, free0)
        && Written(content, c0, f0, data, n) && |fs.store| == |s0| && Confined(fs.g, secs, s0, fs.store)
    }

    /** The volume is full and the chain used up. */
    ghost predicate AtEnd()
      reads this`secs, this`fptr, fs`fat, fs`freeClst
    {
      NoRoom() && fptr / 512 >= |secs|
    }

    /** One turn of f_write's loop, in terms of the whole write. */
    method WriteNext(buff: array<Byte>, at: nat, btw: nat, ghost data: seq<Byte>, ghost c0: seq<Byte>, ghost f0: nat, ghost s0: seq<Byte>, ghost chain0: Chain, ghost free0: nat) returns (wcnt: nat)
      requires Writing(data, c0, f0, s0, chain0, free0, at) && buff[..] == data && buff != buf && buff != fs.win && buff != fs.disk
      requires 0 < btw && at + btw <= buff.Length && f0 + at + btw <= 0xFFFF_FFFF
      modifies this`clust, this`ix, this`chain, this`secs, this`sclust, this`dirty, this`content, this`fptr, this`objsize, this`sect
      modifies buf, fs`wflag, fs`winsect, fs`store, fs`fat, fs`lastClst, fs`freeClst, fs`fsiFlag, fs.win, fs.disk
      ensures Writing(data, c0, f0, s0, chain0, free0, at + wcnt) && wcnt <= btw && (wcnt == 0 ==> AtEnd())
    {
      assert OpenLoop(0);
      ghost var c1, s1, secs1 := content, fs.store, secs;
      wcnt := WriteStep(buff, at, btw, data);
      ConfinedGrows(fs.g, secs1, secs, s0, s1, fs.store);
      WrittenOn(c1, content, c0, f0, data, at, data[at..at + wcnt]);
    }

    /** The loop of f_write: it ends early only if the volume is full. */
    method WriteLoop(buff: array<Byte>, count: nat, ghost data: seq<Byte>, ghost c0: seq<Byte>, ghost f0: nat, ghost s0: seq<Byte>, ghost chain0: Chain, ghost free0: nat) returns (bw: nat)
      requires Writing(data, c0, f0, s0, chain0, free0, 0) && buff[..] == data && buff != buf && buff != fs.win && buff != fs.disk
      requires count <= buff.Length && f0 + count <= 0xFFFF_FFFF
      modifies this`clust, this`ix, this`chain, this`secs, this`sclust, this`dirty, this`content, this`fptr, this`objsize, this`sect
      modifies buf, fs`wflag, fs`winsect, fs`store, fs`fat, fs`lastClst, fs`freeClst, fs`fsiFlag, fs.win, fs.disk
      ensures Writing(data, c0, f0, s0, chain0, free0, bw) && bw <= count && (bw < count ==> AtEnd())
    {
      bw := 0;
      var btw := count;
      while btw != 0
        invariant Writing(data, c0, f0, s0, chain0, free0, bw) && buff[..] == data
        invariant 0 <= bw && 0 <= btw && bw + btw == count
      {
        var wcnt := WriteNext(buff, bw, btw, data, c0, f0, s0, chain0, free0);
        if wcnt == 0 { break; }
        btw := btw - wcnt;
        bw := bw + wcnt;
      }
    }

    method FWrite(buff: array<Byte>, count: Word32) returns (res: FResult, bw: nat)
      requires Valid() && buff != buf && buff != fs.win && buff != fs.disk && count <= buff.Length
      modifies this`clust, this`ix, this`chain, this`secs, this`sclust, this`dirty, this`content, this`fptr, this`objsize, this`sect
      modifies this`modified, buf, fs`wflag, fs`winsect, fs`store, fs`fat, fs`lastClst, fs`freeClst, fs`fsiFlag, fs.win, fs.disk
      ensures Valid() && old(chain) <= chain
      ensures !writable ==> res == FrDenied && bw == 0 && content == old(content) && fptr == old(fptr) && fs.store == old(fs.store)
      ensures writable ==> res == FrOk && modified && bw <= old(Clipped(count)) && fptr == old(fptr) + bw
      ensures writable ==> content == Overwrite(old(content), old(fptr), buff[..bw])
      ensures writable && bw < old(Clipped(count)) ==> NoRoom() && fptr / 512 >= |secs|
      ensures |fs.store| == |old(fs.store)| && Confined(fs.g, secs, old(fs.store), fs.store)
      ensures Tight(|old(chain)|, fptr) && Counted(|old(chain)|, old(fs.freeClst))
    {
      if !writable { return FrDenied, 0; }
      WriteLimit(fptr, count);
      var btw := Clipped(count);
      ConfinedSelf(fs.g, secs, fs.store);
      WrittenNothing(content, fptr, buff[..]);
      bw := WriteLoop(buff, btw, buff[..], content, fptr, fs.store, chain, fs.freeClst);
      assert buff[..bw] == buff[..][..bw];
      assert OpenLoop(0) && OpenData(0);
      modified := true;
      res := FrOk;
    }

    /** remove_chain: the FAT changes, the file's sectors do not. */
    method CallRemoveChain(c: nat, pc: nat, ghost u: Unlinked) returns (res: FResult)
      requires DataHeld() && Coherent(fs.store, Buffer()) && buf.Length == 512 && buf != fs.win && buf != fs.disk
      requires 2 <= c < |fs.fat| && (pc == 0 || (2 <= pc < |fs.fat| && fs.fat[pc] != 0)) && u == Unlink(fs.Ended(fs.fat, pc), c)
      modifies fs`wflag, fs`winsect, fs`store, fs`fat, fs`lastClst, fs`freeClst, fs`fsiFlag, fs.win, fs.disk
      ensures DataHeld() && Coherent(fs.store, Buffer()) && SameOutside(fs.g, old(fs.store), fs.store)
      ensures fs.fat == u.fat && (res == if u.ok then FrOk else FrIntErr) && fs.freeClst == fs.Raised(old(fs.freeClst), u.freed)
    {
      assert OpenData(0);
      ghost var s0, w0 := fs.store, fs.winsect;
      res := fs.RemoveChain(c, pc);
      if fs.winsect != w0 {
        FatWindowApart(fs.winsect);
        StillUnseen(w0);
      }
      StoreFrame(content, secs, s0, fs.store, Buffer(), fs.g, chain);
    }

    /** Free the chain from cluster k on. */
    method CutChainAt(c: nat, pc: nat, ghost k: nat) returns (res: FResult)
      requires Core() && k < |chain| && c == chain[k] && pc == if k == 0 then 0 else chain[k - 1]
      modifies fs`wflag, fs`winsect, fs`store, fs`fat, fs`lastClst, fs`freeClst, fs`fsiFlag, fs.win, fs.disk
      ensures DataHeld() && Coherent(fs.store, Buffer()) && SameOutside(fs.g, old(fs.store), fs.store) && res == FrOk
      ensures IsChain(old(fs.fat), chain) && fs.fat == CutFat(old(fs.fat), chain, k, EntryMask(fs.g.fsType)) && fs.freeClst == fs.Raised(old(fs.freeClst), |chain| - k)
      ensures WellFormed(fs.fat, if k == 0 then others else others + {chain[..k]}) && (k > 0 ==> chain[..k] !in others)
    {
      assert OpenCore(0);
      CutFacts(c, pc, k);
      ghost var u := Unlinked(true, CutFat(fs.fat, chain, k, EntryMask(fs.g.fsType)), |chain| - k);
      res := CallRemoveChain(c, pc, u);
    }

    lemma CutFacts(c: nat, pc: nat, k: nat)
      requires Core() && k < |chain| && c == chain[k] && pc == if k == 0 then 0 else chain[k - 1]
      ensures IsChain(fs.fat, chain) && EntryMask(fs.g.fsType) >= |fs.fat| && 2 <= c < |fs.fat| && (pc == 0 || (2 <= pc < |fs.fat| && fs.fat[pc] != 0))
      ensures var f := CutFat(fs.fat, chain, k, EntryMask(fs.g.fsType));
        && Unlink(fs.Ended(fs.fat, pc), c) == Unlinked(true, f, |chain| - k)
        && WellFormed(f, if k == 0 then others else others + {chain[..k]}) && (k > 0 ==> chain[..k] !in others)
    {
      assert OpenCore(0);
      assert OpenChain(0) && OpenData(0);
      TrimFacts(fs.g.fsType, 0);
      RemovedKeepsChains(fs.fat, Everything(), chain, k, EntryMask(fs.g.fsType));
      assert CutChains(Everything(), chain, k) == if k == 0 then others else others + {chain[..k]};
      PrefixIsNew(fs.fat, others, chain, k);
      if k > 0 { ChainedIsUsed(fs.fat, chain, k - 1); }
    }

    /** Keep the first k clusters and the first p bytes. */
    ghost method Trim(k: nat, p: nat)
      requires DataHeld() && !dirty && k <= |chain| && p <= |content| && p <= 512 * Times(fs.g.csize, k)
      modifies this`chain, this`secs, this`content
      ensures DataHeld() && chain == old(chain)[..k] && content == old(content)[..p]
      ensures |secs| == Times(fs.g.csize, k) && secs <= old(secs)
    {
      assert OpenData(0);
      SectorsPrefix(fs.g, chain, k);
      HoldsPrefix(content, secs, fs.store, Buffer(), p, Times(fs.g.csize, k));
      ghost var secs0 := secs;
      chain := chain[..k];
      secs := secs[..Times(fs.g.csize, k)];
      content := content[..p];
      assert forall i {:trigger secs[i]} :: 0 <= i < |secs| ==> secs[i] == secs0[i];
    }

    /** Whether the file keeps clusters after the pointer's. */
    ghost function KeptClusters(): nat
      reads this`fptr, this`ix
    {
      if fptr == 0 then 0 else ix + 1
    }

    method FTruncate() returns (res: FResult)
      requires Valid()
      modifies this`owned, this`chain, this`secs, this`sclust, this`dirty, this`content, this`objsize, this`modified
      modifies fs`wflag, fs`winsect, fs`store, fs`fat, fs`lastClst, fs`freeClst, fs`fsiFlag, fs.win, fs.disk
      ensures Valid()
      ensures !writable ==> res == FrDenied && content == old(content) && fs.fat == old(fs.fat) && fs.store == old(fs.store)
      ensures writable ==> res == FrOk && content == old(content)[..fptr]
      ensures owned == (old(owned) && OwnSect(secs, sect)) && (fptr % 512 != 0 || fptr >= |old(content)| ==> owned == old(owned))
      ensures modified == (old(modified) || (writable && fptr < |old(content)|))
      ensures writable && fptr < |old(content)| ==> old(KeptClusters()) <= |old(chain)| && chain == old(chain)[..old(KeptClusters())]
      ensures writable && fptr < |old(content)| ==> Tight(0, fptr)
      ensures |chain| <= |old(chain)| && fs.freeClst == fs.Raised(old(fs.freeClst), |old(chain)| - |chain|)
      ensures !(writable && fptr < |old(content)|) ==> chain == old(chain) && fs.fat == old(fs.fat) && fs.store == old(fs.store)
      ensures |fs.store| == |old(fs.store)| && Confined(fs.g, old(secs), old(fs.store), fs.store)
    {
      ConfinedSelf(fs.g, secs, fs.store);
      if !writable { return FrDenied; }
      res := FrOk;
      if fptr < objsize {
        res := CutHere();
        modified := true;
      }
    }

    /** f_truncate where there is something to cut off. */
    method CutHere() returns (res: FResult)
      requires Valid() && fptr < objsize
      modifies this`owned, this`chain, this`secs, this`sclust, this`dirty, this`content, this`objsize
      modifies fs`wflag, fs`winsect, fs`store, fs`fat, fs`lastClst, fs`freeClst, fs`fsiFlag, fs.win, fs.disk
      ensures Valid() && res == FrOk && content == old(content)[..fptr]
      ensures owned == (old(owned) && OwnSect(secs, sect)) && (fptr % 512 != 0 ==> owned == old(owned))
      ensures old(KeptClusters()) <= |old(chain)| && chain == old(chain)[..old(KeptClusters())] && Tight(0, fptr)
      ensures fs.freeClst == fs.Raised(old(fs.freeClst), |old(chain)| - |chain|)
      ensures |fs.store| == |old(fs.store)| && Confined(fs.g, old(secs), old(fs.store), fs.store)
    {
      ghost var s0 := fs.store;
      res := CutTail();
      FlushTail(s0);
      SetEnd();
      PointerInLast();
    }

    /** The cluster of the pointer is the last one the file keeps. */
    lemma PointerInLast()
      requires fptr > 0 ==> At((fptr - 1) / 512)
      requires |chain| == KeptClusters()
      ensures Tight(0, fptr)
    {
      assert OpenAt(0);
    }

    /** The write-back of f_truncate. */
    method FlushTail(ghost s0: seq<Byte>)
      requires DataHeld() && Coherent(fs.store, Buffer()) && buf.Length == 512 && buf != fs.win && buf != fs.disk
      requires SameOutside(fs.g, s0, fs.store)
      modifies this`dirty, fs`store, fs.disk
      ensures DataHeld() && Coherent(fs.store, Buffer()) && !dirty
      ensures |s0| == |fs.store| && Confined(fs.g, secs, s0, fs.store)
    {
      FatsAreOutside(s0);
      ghost var s1 := fs.store;
      Flush();
      ConfinedTrans(fs.g, secs, s0, s1, fs.store);
    }

    /** The file ends at the pointer: its chain has been cut there and its buffer is clean. */
    method SetEnd()
      requires DataHeld() && Coherent(fs.store, Buffer()) && buf.Length == 512 && buf != fs.win && buf != fs.disk && !dirty
      requires 1 <= fs.g.csize <= 128 && fptr < |content| && (sect != 0 ==> SectApart(fs.g, others, sect))
      requires fptr > 0 ==> At((fptr - 1) / 512)
      requires fptr % 512 != 0 ==> fptr / 512 < |secs| && sect != 0 && sect == secs[fptr / 512]
      requires KeptClusters() <= |chain| && chain[..KeptClusters()] !in others
      requires WellFormed(fs.fat, if fptr == 0 then others else others + {chain[..KeptClusters()]})
      requires sclust == if fptr == 0 then 0 else chain[0]
      modifies this`chain, this`secs, this`content, this`objsize, this`owned
      ensures Valid() && content == old(content)[..fptr] && chain == old(chain)[..old(KeptClusters())]
      ensures owned == (old(owned) && OwnSect(secs, sect)) && (fptr % 512 != 0 ==> OwnSect(secs, sect))
    {
      assert OpenCore(0);
      assert OpenAt(0);
      PointerInKept();
      ghost var secs0 := secs;
      Trim(KeptClusters(), fptr);
      objsize := fptr;
      assert forall i {:trigger secs[i]} :: 0 <= i < |secs| ==> secs[i] == secs0[i];
      owned := owned && OwnSect(secs, sect);
    }

    lemma PointerInKept()
      requires fptr > 0 ==> At((fptr - 1) / 512)
      ensures fptr <= 512 * Times(fs.g.csize, KeptClusters())
    {
      assert OpenAt(0);
    }

    /** f_truncate: free what follows the pointer's cluster. */
    method CutTail() returns (res: FResult)
      requires Valid() && fptr < objsize
      modifies this`sclust, fs`wflag, fs`winsect, fs`store, fs`fat, fs`lastClst, fs`freeClst, fs`fsiFlag, fs.win, fs.disk
      ensures DataHeld() && Coherent(fs.store, Buffer()) && SameOutside(fs.g, old(fs.store), fs.store) && res == FrOk
      ensures buf.Length == 512 && buf != fs.win && buf != fs.disk
      ensures KeptClusters() <= |chain| && fs.freeClst == fs.Raised(old(fs.freeClst), |chain| - KeptClusters())
      ensures WellFormed(fs.fat, if fptr == 0 then others else others + {chain[..KeptClusters()]})
      ensures chain[..KeptClusters()] !in others && sclust == if fptr == 0 then 0 else chain[0]
    {
      if fptr == 0 {
        res := CutAll();
      } else {
        res := CutAfter();
      }
    }

    /** f_truncate at the start of the file: free the whole chain. */
    method CutAll() returns (res: FResult)
      requires Core() && 0 < objsize
      modifies this`sclust, fs`wflag, fs`winsect, fs`store, fs`fat, fs`lastClst, fs`freeClst, fs`fsiFlag, fs.win, fs.disk
      ensures DataHeld() && Coherent(fs.store, Buffer()) && SameOutside(fs.g, old(fs.store), fs.store) && res == FrOk
      ensures buf.Length == 512 && buf != fs.win && buf != fs.disk
      ensures WellFormed(fs.fat, others) && [] !in others && sclust == 0 && fs.freeClst == fs.Raised(old(fs.freeClst), |chain|)
    {
      assert OpenCore(0);
      ChainLinks(0);
      NotEmpty();
      res := CutChainAt(sclust, 0, 0);
      sclust := 0;
    }

    /** f_truncate inside the file: free what follows clust, if anything does. */
    method CutAfter() returns (res: FResult)
      requires Core() && 0 < fptr < objsize && At((fptr - 1) / 512)
      modifies fs`wflag, fs`winsect, fs`store, fs`fat, fs`lastClst, fs`freeClst, fs`fsiFlag, fs.win, fs.disk
      ensures DataHeld() && Coherent(fs.store, Buffer()) && SameOutside(fs.g, old(fs.store), fs.store) && res == FrOk
      ensures buf.Length == 512 && buf != fs.win && buf != fs.disk && ix < |chain|
      ensures WellFormed(fs.fat, others + {chain[..ix + 1]}) && chain[..ix + 1] !in others && sclust == chain[0]
      ensures fs.freeClst == fs.Raised(old(fs.freeClst), |chain| - (ix + 1))
    {
      assert OpenCore(0);
      assert OpenAt(0);
      ChainLinks(ix);
      var ncl := StatusOf(clust);
      res := FrOk;
      if ncl < fs.g.nFatent {
        res := CutChainAt(ncl, clust, ix + 1);
      } else {
        assert chain[..ix + 1] == chain;
      }
    }

    lemma NotEmpty()
      requires Core() && objsize > 0
      ensures chain != [] && [] !in others
    {
      assert OpenCore(0);
      assert OpenData(0) && OpenChain(0);
      assert forall y :: y in Everything() ==> IsChain(fs.fat, y);
    }

    /** f_lseek has reached cluster ix, which starts at fptr; `rest` bytes of the target are left. */
    ghost predicate Seeking(rest: nat, target: nat)
      reads this`ix, this`chain, this`clust, this`fptr
    {
      && ix < |chain| && clust == chain[ix] && fptr == 512 * Times(fs.g.csize, ix)
      && fptr + rest == target && rest > 0
    }

    /** The shortcut of f_lseek applies: the target is in the current cluster or after it. */
    method SeekForward(ofs: Word32) returns (ahead: bool)
      requires Valid() && ofs > 0
      ensures ahead ==> fptr > 0 && 512 * Times(fs.g.csize, ix) < ofs
    {
      assert OpenCore(0);
      assert OpenAt(0);
      var bcs := fs.g.csize * 512;
      ahead := fptr > 0 && (ofs - 1) / bcs >= (fptr - 1) / bcs;
      if ahead { NotBefore(fs.g, fptr - 1, ofs - 1, ix); }
    }

    /** f_lseek: start from the current cluster or from the first one, which is created if there is none. */
    method SeekStart(ofs: Word32) returns (clst: nat, rest: nat)
      requires Valid() && ofs > 0
      modifies this`clust, this`ix, this`fptr, this`chain, this`secs, this`sclust
      modifies fs`wflag, fs`winsect, fs`store, fs`fat, fs`lastClst, fs`freeClst, fs`fsiFlag, fs.win, fs.disk
      ensures Core() && SameOutside(fs.g, old(fs.store), fs.store) && old(chain) <= chain && old(secs) <= secs
      ensures old(chain) != [] ==> clst != 0 && chain == old(chain) && secs == old(secs) && fs.fat == old(fs.fat)
      ensures clst == 0 ==> chain == [] && secs == [] && fptr == 0 && NoRoom()
      ensures clst != 0 ==> clst == clust && Seeking(rest, ofs)
      ensures Tight(|old(chain)|, fptr + 1) && Counted(|old(chain)|, old(fs.freeClst))
    {
      var ahead := SeekForward(ofs);
      if ahead {
        rest := SeekFromHere(ofs);
        clst := clust;
      } else {
        clst := SeekFromStart();
        rest := ofs;
      }
    }

    method SeekFromHere(ofs: Word32) returns (rest: nat)
      requires Core() && fptr > 0 && At((fptr - 1) / 512) && 512 * Times(fs.g.csize, ix) < ofs
      modifies this`fptr
      ensures Seeking(rest, ofs) && Core() && clust != 0
    {
      ClusterNotZero();
      fptr := StartOfCluster();
      rest := ofs - fptr;
      assert OpenAt(0);
    }

    lemma ClusterNotZero()
      requires Core() && fptr > 0 && At((fptr - 1) / 512)
      ensures clust >= 2 && chain != []
    {
      assert OpenCore(0);
      assert OpenAt(0) && OpenData(0);
    }

    method SeekFromStart() returns (clst: nat)
      requires Core()
      modifies this`clust, this`ix, this`fptr, this`chain, this`secs, this`sclust
      modifies fs`wflag, fs`winsect, fs`store, fs`fat, fs`lastClst, fs`freeClst, fs`fsiFlag, fs.win, fs.disk
      ensures Core() && SameOutside(fs.g, old(fs.store), fs.store) && old(chain) <= chain && old(secs) <= secs
      ensures old(chain) != [] ==> clst != 0 && chain == old(chain) && secs == old(secs) && fs.fat == old(fs.fat)
      ensures clst == 0 ==> chain == [] && secs == [] && NoRoom()
      ensures fptr == 0 && clst == clust && (clst != 0 ==> ix == 0 && chain != [] && clst == chain[0])
      ensures Tight(|old(chain)|, fptr + 1) && Counted(|old(chain)|, old(fs.freeClst))
    {
      fptr := 0;
      clst := StartCluster();
      EnterCluster(clst, 0);
    }

    method StartOfCluster() returns (b: Word32)
      requires Core() && fptr > 0 && At((fptr - 1) / 512)
      ensures b == 512 * Times(fs.g.csize, ix)
    {
      assert OpenCore(0);
      assert OpenAt(0);
      assert OpenData(0);
      b := ClusterStart(fs.g, fptr - 1, ix);
    }

    /** f_lseek: the cluster after clust, in write mode created if the chain ends; 0 if there is no free cluster. */
    method SeekNext() returns (clst: nat)
      requires Core() && ix < |chain| && clust == chain[ix] && (writable || ix + 1 < |chain|)
      modifies this`chain, this`secs, this`sclust
      modifies fs`wflag, fs`winsect, fs`store, fs`fat, fs`lastClst, fs`freeClst, fs`fsiFlag, fs.win, fs.disk
      ensures Core() && SameOutside(fs.g, old(fs.store), fs.store) && old(chain) <= chain && old(secs) <= secs
      ensures ix + 1 < |old(chain)| ==> clst != 0 && chain == old(chain) && secs == old(secs) && fs.fat == old(fs.fat)
      ensures clst == 0 ==> writable && ix + 1 == |chain| && chain == old(chain) && secs == old(secs) && NoRoom()
      ensures clst != 0 ==> 2 <= clst < NONE && ix + 1 < |chain| && clst == chain[ix + 1]
      ensures (|chain| > |old(chain)| ==> |chain| == ix + 2) && Counted(|old(chain)|, old(fs.freeClst))
    {
      if writable {
        clst := Stretch(clust, ix);
      } else {
        ChainLinks(ix);
        ChainLinks(ix + 1);
        clst := StatusOf(clust);
      }
    }

    /** The walk of f_lseek; `rest` is 0 if the chain could not be stretched far enough. */
    method SeekWalk(ofs: nat, ghost target: nat, ghost n: nat, ghost free0: nat) returns (rest: nat)
      requires Tight(n, fptr + 1) && Counted(n, free0) && Core() && Seeking(ofs, target) && target <= 0xFFFF_FFFF && (writable || target <= 512 * |secs|)
      modifies this`clust, this`ix, this`fptr, this`chain, this`secs, this`sclust
      modifies fs`wflag, fs`winsect, fs`store, fs`fat, fs`lastClst, fs`freeClst, fs`fsiFlag, fs.win, fs.disk
      ensures Core() && SameOutside(fs.g, old(fs.store), fs.store) && old(chain) <= chain && old(secs) <= secs
      ensures target <= 512 * |old(secs)| ==> rest > 0 && chain == old(chain) && secs == old(secs) && fs.fat == old(fs.fat)
      ensures rest > 0 ==> Seeking(rest, target) && rest <= 512 * fs.g.csize
      ensures rest == 0 ==> FullAt() && fptr < target
      ensures Tight(n, fptr + 1) && Counted(n, free0)
    {
      rest := ofs;
      while rest > 512 * fs.g.csize
        invariant Core() && SameOutside(fs.g, old(fs.store), fs.store) && old(chain) <= chain && old(secs) <= secs
        invariant Seeking(rest, target) && (writable || target <= 512 * |secs|) && Tight(n, fptr + 1) && Counted(n, free0)
        invariant target <= 512 * |old(secs)| ==> chain == old(chain) && secs == old(secs) && fs.fat == old(fs.fat)
        decreases rest
      {
        rest := SeekTurn(rest, target);
        if rest == 0 { break; }
      }
    }

    /** One turn of the walk: the next cluster, or 0 if the chain ends and cannot grow. */
    method SeekTurn(rest0: nat, ghost target: nat) returns (rest: nat)
      requires Core() && Seeking(rest0, target) && rest0 > 512 * fs.g.csize && target <= 0xFFFF_FFFF
      requires writable || target <= 512 * |secs|
      modifies this`clust, this`ix, this`fptr, this`chain, this`secs, this`sclust
      modifies fs`wflag, fs`winsect, fs`store, fs`fat, fs`lastClst, fs`freeClst, fs`fsiFlag, fs.win, fs.disk
      ensures Core() && SameOutside(fs.g, old(fs.store), fs.store) && old(chain) <= chain && old(secs) <= secs
      ensures target <= 512 * |old(secs)| ==> rest > 0 && chain == old(chain) && secs == old(secs) && fs.fat == old(fs.fat)
      ensures rest > 0 ==> Seeking(rest, target) && rest < rest0
      ensures rest == 0 ==> FullAt() && fptr < target
      ensures Tight(|old(chain)|, fptr + 1) && Counted(|old(chain)|, old(fs.freeClst)) && old(fptr) <= fptr
    {
      if target <= 512 * |secs| { MoreClusters(target); }
      var clst := SeekNext();
      rest := SeekAdvance(clst, rest0);
    }

    /** Move on by one cluster, to clst unless that is 0. */
    method SeekAdvance(clst: nat, rest0: nat) returns (rest: nat)
      requires rest0 > 512 * fs.g.csize && fptr + rest0 <= 0xFFFF_FFFF && clst < NONE
      modifies this`clust, this`ix, this`fptr
      ensures fptr == old(fptr) + 512 * fs.g.csize && rest == if clst == 0 then 0 else rest0 - 512 * fs.g.csize
      ensures if clst == 0 then clust == old(clust) && ix == old(ix) else clust == clst && ix == old(ix) + 1
    {
      var bcs := 512 * fs.g.csize;
      fptr := fptr + bcs;
      rest := if clst == 0 then 0 else rest0 - bcs;
      if clst != 0 {
        clust := clst;
        ix := ix + 1;
      }
    }

    /** The pointer is at the end of a chain that cannot grow. */
    ghost predicate FullAt()
      reads this`ix, this`chain, this`clust, this`fptr, fs`freeClst, fs`fat
    {
      && ix + 1 == |chain| && clust == chain[ix] && fptr == 512 * Times(fs.g.csize, ix + 1)
      && writable && NoRoom()
    }

    lemma MoreClusters(target: nat)
      requires Core() && ix < |chain| && 512 * Times(fs.g.csize, ix) + 512 * fs.g.csize < target <= 512 * |secs|
      ensures ix + 1 < |chain|
    {
      assert OpenCore(0);
      assert OpenData(0);
      SectorHasCluster(fs.g, chain, ix + 1, Times(fs.g.csize, ix + 1));
    }

    /** f_lseek: the pointer after the walk. */
    method SeekLand(rest: nat, ghost target: nat)
      requires Core() && target <= 0xFFFF_FFFF && rest <= 512 * fs.g.csize
      requires if rest > 0 then Seeking(rest, target) else FullAt() && 0 < fptr
      modifies this`fptr
      ensures Core() && fptr == old(fptr) + rest && At((fptr - 1) / 512) && 0 < fptr <= 512 * |secs|
      ensures rest % 512 == fptr % 512
    {
      assert OpenCore(0);
      assert OpenAt(0);
      EndOfSecs();
      if rest > 0 { TimesMonotone(fs.g.csize, ix + 1, |chain|); }
      fptr := fptr + rest;
    }

    /** f_lseek beyond the end stretches the file; the new bytes are whatever the sectors hold. */
    method StretchSize()
      requires Core() && fptr <= 512 * |secs|
      modifies this`objsize, this`content, this`modified
      ensures Core() && fptr <= objsize && old(content) <= content
      ensures |content| == if fptr > |old(content)| then fptr else |old(content)|
      ensures modified == (old(modified) || |content| > |old(content)|)
    {
      assert OpenCore(0);
      if fptr > objsize {
        ghost var more := LongerContent(fs.g, fs.store, fs.winsect, chain, secs, content, Buffer(), fptr);
        content := more;
        objsize := fptr;
        modified := true;
      }
    }

    /** f_lseek into the middle of a sector, `rest` bytes into the cluster, brings it into the buffer. */
    method SeekLoad(rest: nat)
      requires Core() && 0 < fptr <= objsize && At((fptr - 1) / 512) && fptr % 512 != 0 && fptr == 512 * Times(fs.g.csize, ix) + rest
      modifies this`dirty, this`sect, buf, fs`store, fs.disk
      ensures Valid()
      ensures |old(fs.store)| == |fs.store| && Confined(fs.g, secs, old(fs.store), fs.store)
    {
      assert OpenCore(0);
      SameSectorBack(fptr);
      assert OpenAt(0);
      var nsect := Locate(rest / 512);
      RunFacts(fptr / 512, nsect, rest / 512, 1);
      FillBuffer(nsect, fptr / 512);
    }

    /** Where f_lseek is asked to go: in read-only mode not past the end. */
    function SeekTarget(ofs: Word32): Word32
      reads this`objsize
    {
      if ofs > objsize && !writable then objsize else ofs
    }

    lemma ReadOnlyTarget(ofs: Word32)
      requires Valid()
      ensures !writable ==> SeekTarget(ofs) == (if ofs <= |content| then ofs else |content|) && |content| <= 512 * |secs|
    {
      assert OpenCore(0) && OpenData(0);
    }

    /** The part of f_lseek that finds the position. */
    method SeekTo(ofs: Word32) returns (rest: nat)
      requires Valid() && ofs > 0 && (writable || ofs <= objsize)
      modifies this`clust, this`ix, this`fptr, this`chain, this`secs, this`sclust
      modifies fs`wflag, fs`winsect, fs`store, fs`fat, fs`lastClst, fs`freeClst, fs`fsiFlag, fs.win, fs.disk
      ensures Core() && SameOutside(fs.g, old(fs.store), fs.store) && old(chain) <= chain && old(secs) <= secs
      ensures ofs <= 512 * |old(secs)| ==> fptr == ofs && chain == old(chain) && fs.fat == old(fs.fat)
      ensures fptr <= 512 * |secs| && (fptr > 0 ==> At((fptr - 1) / 512)) && rest % 512 == fptr % 512
      ensures fptr % 512 != 0 ==> fptr == 512 * Times(fs.g.csize, ix) + rest
      ensures fptr != ofs ==> fptr == 512 * |secs| < ofs && NoRoom()
      ensures Tight(|old(chain)|, fptr) && Counted(|old(chain)|, old(fs.freeClst))
    {
      NonEmptyTarget(ofs);
      var clst;
      clst, rest := SeekStart(ofs);
      if clst == 0 { return 0; }
      rest := SeekOn(rest, ofs, |old(chain)|, old(fs.freeClst));
    }

    /** The walk of f_lseek and its end. */
    method SeekOn(rest0: nat, ofs: Word32, ghost n: nat, ghost free0: nat) returns (rest: nat)
      requires Core() && Seeking(rest0, ofs) && (writable || ofs <= 512 * |secs|) && Tight(n, fptr + 1) && Counted(n, free0)
      modifies this`clust, this`ix, this`fptr, this`chain, this`secs, this`sclust
      modifies fs`wflag, fs`winsect, fs`store, fs`fat, fs`lastClst, fs`freeClst, fs`fsiFlag, fs.win, fs.disk
      ensures Core() && SameOutside(fs.g, old(fs.store), fs.store) && old(chain) <= chain && old(secs) <= secs
      ensures ofs <= 512 * |old(secs)| ==> fptr == ofs && chain == old(chain) && fs.fat == old(fs.fat)
      ensures 0 < fptr <= 512 * |secs| && At((fptr - 1) / 512) && rest % 512 == fptr % 512
      ensures fptr % 512 != 0 ==> fptr == 512 * Times(fs.g.csize, ix) + rest
      ensures fptr != ofs ==> fptr == 512 * |secs| < ofs && NoRoom()
      ensures Tight(n, fptr) && Counted(n, free0)
    {
      rest := SeekWalk(rest0, ofs, n, free0);
      SeekLand(rest, ofs);
      EndOfSecs();
    }

    lemma NonEmptyTarget(ofs: nat)
      requires Core() && ofs > 0
      ensures ofs <= objsize ==> chain != []
      ensures ofs <= 512 * |secs| ==> chain != []
    {
      EndOfSecs();
    }

    method FLseek(target: Word32) returns (res: FResult)
      requires Valid()
      modifies this`clust, this`ix, this`chain, this`secs, this`sclust, this`dirty, this`content, this`fptr, this`objsize, this`sect
      modifies this`modified, buf, fs`wflag, fs`winsect, fs`store, fs`fat, fs`lastClst, fs`freeClst, fs`fsiFlag, fs.win, fs.disk
      ensures Valid() && res == FrOk && old(chain) <= chain && old(content) <= content
      ensures |content| == if fptr > |old(content)| then fptr else |old(content)|
      ensures modified == (old(modified) || |content| > |old(content)|)
      ensures old(SeekTarget(target)) <= 512 * |old(secs)| ==> fptr == old(SeekTarget(target)) && chain == old(chain) && fs.fat == old(fs.fat)
      ensures fptr != old(SeekTarget(target)) ==> fptr == 512 * |secs| < old(SeekTarget(target)) && NoRoom()
      ensures !writable ==> content == old(content) && fptr == if target <= |content| then target else |content|
      ensures |fs.store| == |old(fs.store)| && Confined(fs.g, secs, old(fs.store), fs.store)
      ensures Tight(|old(chain)|, fptr) && Counted(|old(chain)|, old(fs.freeClst))
    {
      ReadOnlyTarget(target);
      res := SeekWithin(target);
    }

    /** f_lseek: the pointer moves, the chain grows if it must, and the buffer takes the sector. */
    method SeekWithin(target: Word32) returns (res: FResult)
      requires Valid()
      modifies this`clust, this`ix, this`chain, this`secs, this`sclust, this`dirty, this`content, this`fptr, this`objsize, this`sect
      modifies this`modified, buf, fs`wflag, fs`winsect, fs`store, fs`fat, fs`lastClst, fs`freeClst, fs`fsiFlag, fs.win, fs.disk
      ensures Valid() && res == FrOk && old(chain) <= chain && old(content) <= content
      ensures |content| == if fptr > |old(content)| then fptr else |old(content)|
      ensures modified == (old(modified) || |content| > |old(content)|)
      ensures old(SeekTarget(target)) <= 512 * |old(secs)| ==> fptr == old(SeekTarget(target)) && chain == old(chain) && fs.fat == old(fs.fat)
      ensures fptr != old(SeekTarget(target)) ==> fptr == 512 * |secs| < old(SeekTarget(target)) && NoRoom()
      ensures |fs.store| == |old(fs.store)| && Confined(fs.g, secs, old(fs.store), fs.store)
      ensures Tight(|old(chain)|, fptr) && Counted(|old(chain)|, old(fs.freeClst))
    {
      var ofs := SeekTarget(target);
      ghost var s0 := fs.store;
      var rest := SeekMove(ofs);
      StretchSize();
      ghost var s1 := fs.store;
      if fptr % 512 != 0 { SeekLoad(rest); } else { ConfinedSelf(fs.g, secs, s1); }
      ConfinedTrans(fs.g, secs, s0, s1, fs.store);
      res := FrOk;
    }

    /** The pointer moves; the chain grows if it must and can. */
    method SeekMove(ofs: Word32) returns (rest: nat)
      requires Valid() && (writable || ofs <= objsize)
      modifies this`clust, this`ix, this`fptr, this`chain, this`secs, this`sclust
      modifies fs`wflag, fs`winsect, fs`store, fs`fat, fs`lastClst, fs`freeClst, fs`fsiFlag, fs.win, fs.disk
      ensures Core() && old(chain) <= chain && |fs.store| == |old(fs.store)| && Confined(fs.g, secs, old(fs.store), fs.store)
      ensures ofs <= 512 * |old(secs)| ==> fptr == ofs && chain == old(chain) && fs.fat == old(fs.fat)
      ensures fptr <= 512 * |secs| && (fptr > 0 ==> At((fptr - 1) / 512))
      ensures fptr % 512 != 0 ==> fptr == 512 * Times(fs.g.csize, ix) + rest
      ensures fptr != ofs ==> fptr == 512 * |secs| < ofs && NoRoom()
      ensures Tight(|old(chain)|, fptr) && Counted(|old(chain)|, old(fs.freeClst))
    {
      rest := 0;
      if ofs > 0 {
        rest := SeekTo(ofs);
      } else {
        fptr := 0;
      }
      FatsOutside(old(fs.store));
    }
  }

  /** A chain of a well-formed FAT has proper sectors. */
  lemma OpenedOk(g: Geo, fat: Fat, chains: set<Chain>, x: Chain, size: nat)
    requires WellFormed(fat, chains) && |fat| == g.nFatent && DataOk(g, size) && (x == [] || x in chains)
    ensures Clusters(g, x) && SecsOk(Sectors(g, x), size)
  {
    if x != [] {
      assert IsChain(fat, x);
      ChainIsAcyclic(fat, x);
    }
    SectorsOk(g, x, size);
  }

  /** What a file that is just opened holds: `size` bytes of its sectors. */
  lemma OpenedContent(g: Geo, fat: Fat, chains: set<Chain>, x: Chain, s: seq<Byte>, w: nat, c: Cache, size: nat) returns (content: seq<Byte>)
    requires WellFormed(fat, chains) && |fat| == g.nFatent && DataOk(g, |s|) && (x == [] || x in chains)
    requires !c.dirty && c.sect == 0 && |c.bytes| == 512 && size <= 512 * Times(g.csize, |x|)
    requires forall i :: 0 <= i < |x| ==> !InCluster(g, x[i], w)
    ensures Clusters(g, x) && |content| == size <= 512 * |Sectors(g, x)|
    ensures ContentHeld(g, s, w, x, Sectors(g, x), content, c) && OnMedium(content, Sectors(g, x), s)
  {
    OpenedOk(g, fat, chains, x, |s|);
    var secs := Sectors(g, x);
    forall k | 0 <= k < |secs| ensures secs[k] != w { var p := SectorsFrom(g, x, k); }
    content := Stretched([], secs, s, c, size);
    CleanIsOnMedium(content, secs, s, c);
  }

  /** The sectors of one chain are in no cluster of another. */
  lemma ChainsApart(g: Geo, fat: Fat, others: set<Chain>, x: Chain, k: nat)
    requires x != [] ==> WellFormed(fat, others + {x}) && x !in others
    requires Clusters(g, x) && k < |Sectors(g, x)|
    ensures SectApart(g, others, Sectors(g, x)[k])
  {
    var s := Sectors(g, x)[k];
    var p := SectorsFrom(g, x, k);
    forall y, i {:trigger y[i], y in others} | y in others && 0 <= i < |y| ensures !InCluster(g, y[i], s) {
      assert Apart(x, y) && x[p] in x && y[i] in y;
      if InCluster(g, y[i], s) { OneCluster(g, x[p], y[i], s); }
    }
  }

  /** A sector in a cluster of a chain is not apart. */
  lemma InsideIsNotApart(g: Geo, others: set<Chain>, y: Chain, i: nat, s: nat)
    requires y in others && i < |y| && InCluster(g, y[i], s)
    ensures !SectApart(g, others, s)
  {
    assert OpenSect(0);
  }

  /** Apart from more chains is apart from fewer. */
  lemma FewerApart(g: Geo, others: set<Chain>, rest: set<Chain>, s: nat)
    requires rest <= others
    ensures SectApart(g, others, s) ==> SectApart(g, rest, s)
  {
    if SectApart(g, others, s) { assert OpenSect(0); }
  }

  /** A well-formed FAT has no entry 1. */
  lemma NoBadLinks(fat: Fat, chains: set<Chain>)
    requires WellFormed(fat, chains) && |fat| > 2
    ensures !HasBadLink(fat)
  {
    forall d {:trigger fat[d]} | 2 <= d < |fat| ensures fat[d] != 1 {
      if fat[d] != 0 {
        assert InUse(chains, d);
        var x :| x in chains && d in x;
        var i :| 0 <= i < |x| && x[i] == d;
        assert IsChain(fat, x);
        assert i < |x| - 1 ==> fat[x[i]] == x[i + 1];
      }
    }
  }

  /** What a newly linked cluster means for the file's chain, its sectors and all other chains. */
  lemma StretchedFile(g: Geo, fat: Fat, fat': Fat, others: set<Chain>, x: Chain, c: nat, r: nat, size: nat)
    requires |fat| == g.nFatent && DataOk(g, size) && x !in others
    requires WellFormed(fat, if x == [] then others else others + {x})
    requires Created(fat, fat', c, r, EntryMask(g.fsType)) && g.nFatent <= MaxEntries(g.fsType)
    requires c == if x == [] then 0 else x[|x| - 1]
    ensures WellFormed(fat', others + {x + [r]}) && x + [r] !in others
    ensures Clusters(g, x) && Clusters(g, x + [r])
    ensures Sectors(g, x + [r]) == Sectors(g, x) + Run(ClusterSect(g, r), g.csize)
    ensures SecsOk(Sectors(g, x + [r]), size)
  {
    var chains := if x == [] then others else others + {x};
    TrimFacts(g.fsType, 0);
    CreatedKeepsChains(fat, chains, x, fat', c, r, EntryMask(g.fsType));
    assert chains - {x} == others;
    FreeIsUnchained(fat, chains, r);
    assert r in x + [r];
    OpenedOk(g, fat', others + {x + [r]}, x + [r], size);
    SectorsSnoc(g, x, r);
  }

  /** A change of the FATs alone does not touch the file. */
  lemma StoreFrame(content: seq<Byte>, secs: seq<nat>, s: seq<Byte>, r: seq<Byte>, c: Cache, g: Geo, x: Chain)
    requires Holds(content, secs, s, c) && Coherent(s, c) && SameOutside(g, s, r) && DataOk(g, |s|)
    requires Clusters(g, x) && secs == Sectors(g, x) && (c.sect != 0 ==> g.database <= c.sect)
    ensures Holds(content, secs, r, c) && Coherent(r, c)
  {
    forall k {:trigger secs[k]} | 0 <= k < |secs|
      ensures r[512 * secs[k]..512 * secs[k] + 512] == s[512 * secs[k]..512 * secs[k] + 512]
    {
      var p := SectorsFrom(g, x, k);
    }
    HoldsFrame(content, secs, s, r, c);
  }

  /** What write-back does to the medium. */
  lemma FlushFacts(g: Geo, content: seq<Byte>, secs: seq<nat>, store: seq<Byte>, c: Cache)
    requires Holds(content, secs, store, c) && c.dirty && c.sect in secs
    ensures 512 * c.sect + 512 <= |store|
    ensures var r := Patch(store, 512 * c.sect, c.bytes);
      Holds(content, secs, r, c.(dirty := false)) && Coherent(r, c.(dirty := false)) && Confined(g, secs, store, r)
  {
    var k :| 0 <= k < |secs| && secs[k] == c.sect;
    FlushKeeps(content, secs, store, c);
    var r := Patch(store, 512 * c.sect, c.bytes);
    assert r[512 * c.sect..512 * c.sect + 512] == c.bytes;
  }

  lemma DirectWriteFacts(g: Geo, content: seq<Byte>, secs: seq<nat>, store: seq<Byte>, c: Cache, p: nat, s: nat, cc: nat, data: seq<Byte>)
    requires Holds(content, secs, store, c) && Coherent(store, c) && !c.dirty && p <= |content| && p % 512 == 0
    requires RunAt(secs, p / 512, s, cc) && |data| == 512 * cc && 512 * s + |data| <= |store|
    ensures var r, c' := Patch(store, 512 * s, data), Refilled(c, s, data);
      && Holds(Overwrite(content, p, data), secs, r, c') && Coherent(r, c') && !c'.dirty && c'.sect == c.sect
      && Confined(g, secs, store, r)
  {
    DirectWrite(content, secs, store, c, p, s, cc, data);
    DirectWriteCoherent(store, c, s, cc, data);
    DirectConfined(g, secs, store, p / 512, s, cc, data);
  }

  lemma DirectConfined(g: Geo, secs: seq<nat>, store: seq<Byte>, k: nat, s: nat, cc: nat, data: seq<Byte>)
    requires RunAt(secs, k, s, cc) && |data| == 512 * cc && 512 * s + |data| <= |store|
    ensures Confined(g, secs, store, Patch(store, 512 * s, data))
  {
    var r := Patch(store, 512 * s, data);
    forall a {:trigger r[a]} | 0 <= a < |store| && OutsideFats(g, a) && a / 512 !in secs ensures r[a] == store[a] {
      if s <= a / 512 < s + cc { RunMember(secs, k, s, cc, a / 512); }
    }
  }

  lemma RunMember(secs: seq<nat>, k: nat, s: nat, cc: nat, x: nat)
    requires RunAt(secs, k, s, cc) && s <= x < s + cc
    ensures x in secs
  {
    assert secs[k + (x - s)] == x;
  }

  lemma PrefixIsNew(fat: Fat, others: set<Chain>, x: Chain, k: nat)
    requires WellFormed(fat, others + {x}) && x !in others && 0 <= k < |x|
    ensures k > 0 ==> x[..k] !in others
  {
    var p := x[..k];
    assert x[0] in x && (k > 0 ==> p[0] == x[0]);
    assert p in others ==> Apart(x, p);
  }

  lemma StartOfFile(g: Geo, x: Chain)
    requires g.csize > 0 && Clusters(g, x) && |Sectors(g, x)| > 0
    ensures AtCluster(g, x, 0, 0)
  {
  }

  lemma OnlyStart(c: nat, p: nat, csect: nat)
    requires c > 0 && 0 == Times(c, p) + csect
    ensures p == 0
  {
  }

  /** At a cluster boundary before the end of the file the chain goes on. */
  lemma NextCluster(g: Geo, fat: Fat, chains: set<Chain>, x: Chain, p: nat)
    requires WellFormed(fat, chains) && |fat| == g.nFatent && x in chains && g.csize > 0
    requires Clusters(g, x) && p < |x| && Times(g.csize, p + 1) < |Sectors(g, x)|
    ensures p + 1 < |x| && fat[x[p]] == x[p + 1]
  {
    SectorHasCluster(g, x, p + 1, Times(g.csize, p + 1));
    assert IsChain(fat, x);
  }

  lemma ConfinedSelf(g: Geo, secs: seq<nat>, s: seq<Byte>)
    ensures Confined(g, secs, s, s)
  {
  }

  lemma ConfinedTrans(g: Geo, secs: seq<nat>, s: seq<Byte>, r: seq<Byte>, t: seq<Byte>)
    requires Confined(g, secs, s, r) && Confined(g, secs, r, t)
    ensures Confined(g, secs, s, t)
  {
    assert OpenConfined(0);
  }

  lemma ConfinedGrows(g: Geo, secs: seq<nat>, secs': seq<nat>, s: seq<Byte>, r: seq<Byte>, t: seq<Byte>)
    requires Confined(g, secs, s, r) && Confined(g, secs', r, t) && secs <= secs'
    ensures Confined(g, secs', s, t)
  {
    assert OpenConfined(0);
    assert forall x :: x in secs ==> x in secs';
  }

  /** c' is c with data written at p. */
  ghost predicate Wrote(c': seq<Byte>, c: seq<Byte>, p: nat, data: seq<Byte>) {
    p <= |c| && forall k {:trigger OpenWrote(k)} :: OpenWrote(k) ==> c' == Overwrite(c, p, data)
  }

  lemma WroteNothing(c: seq<Byte>, p: nat, data: seq<Byte>)
    requires p <= |c| && data == []
    ensures Wrote(c, c, p, data)
  {
    OverwriteNothing(c, p, data);
  }

  /** c is c0 with the first n bytes of data written at f0. */
  ghost predicate Written(c: seq<Byte>, c0: seq<Byte>, f0: nat, data: seq<Byte>, n: nat) {
    f0 <= |c0| && n <= |data| && forall k {:trigger OpenData(k)} :: OpenData(k) ==> c == Overwrite(c0, f0, data[..n])
  }

  lemma WrittenNothing(c: seq<Byte>, f0: nat, data: seq<Byte>)
    requires f0 <= |c|
    ensures Written(c, c, f0, data, 0)
  {
    OverwriteNothing(c, f0, data[..0]);
  }

  lemma WrittenOn(c: seq<Byte>, c': seq<Byte>, c0: seq<Byte>, f0: nat, data: seq<Byte>, n: nat, piece: seq<Byte>)
    requires Written(c, c0, f0, data, n) && n + |piece| <= |data| && piece == data[n..n + |piece|]
    requires Wrote(c', c, f0 + n, piece)
    ensures Written(c', c0, f0, data, n + |piece|)
  {
    assert OpenData(0) && OpenWrote(0);
    OverwriteOn(c0, f0, data, n, |piece|);
  }

  lemma WriteLimit(fptr: Word32, count: Word32)
    ensures if (fptr + count) % 0x1_0000_0000 < fptr then fptr + count > 0xFFFF_FFFF else fptr + count <= 0xFFFF_FFFF
  {
  }

  /** Between two images only the FATs and the given sectors changed. */
  ghost predicate Confined(g: Geo, secs: seq<nat>, s: seq<Byte>, r: seq<Byte>) {
    |r| == |s| && forall k {:trigger OpenConfined(k)} :: OpenConfined(k) ==> SameElsewhere(g, secs, s, r)
  }

  ghost predicate SameElsewhere(g: Geo, secs: seq<nat>, s: seq<Byte>, r: seq<Byte>)
    requires |r| == |s|
  {
    forall a {:trigger r[a]} :: 0 <= a < |s| && OutsideFats(g, a) && a / 512 !in secs ==> r[a] == s[a]
  }
}
