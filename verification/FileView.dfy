/**
 * A file seen through its sector list, the medium and one sector buffer. Everything here is about
 * values: the methods of File change the real buffer and use these lemmas for what that means.
 */
module FileView {
  import opened Machine

  /** The sectors of a file in file order: inside the disk and without repetition. */
  ghost predicate SecsOk(secs: seq<nat>, size: nat) {
    && (forall k {:trigger secs[k]} :: 0 <= k < |secs| ==> 512 * secs[k] + 512 <= size)
    && (forall j, k {:trigger secs[j], secs[k]} :: 0 <= j < k < |secs| ==> secs[j] != secs[k])
  }

  /** Where byte i of the file is on the medium. */
  function Addr(secs: seq<nat>, i: nat): nat
    requires i / 512 < |secs|
  {
    512 * secs[i / 512] + i % 512
  }

  /** The sector buffer: which sector it stands for, its bytes, and whether they are newer than the medium. */
  datatype Cache = Cache(sect: nat, dirty: bool, bytes: seq<Byte>)

  /** Byte i of the file as f_read would deliver it. */
  ghost function ViewAt(secs: seq<nat>, store: seq<Byte>, c: Cache, i: nat): Byte
    requires i / 512 < |secs| && SecsOk(secs, |store|) && |c.bytes| == 512
  {
    if c.dirty && secs[i / 512] == c.sect then c.bytes[i % 512] else store[Addr(secs, i)]
  }

  /** The file holds `content`. */
  ghost predicate Holds(content: seq<Byte>, secs: seq<nat>, store: seq<Byte>, c: Cache)
  {
    && |c.bytes| == 512 && SecsOk(secs, |store|) && |content| <= 512 * |secs|
    && forall i {:trigger content[i]} :: 0 <= i < |content| ==> content[i] == ViewAt(secs, store, c, i)
  }

  /** The bytes of a run of sectors replaced. */
  function Patch(s: seq<Byte>, at: nat, data: seq<Byte>): (r: seq<Byte>)
    requires at + |data| <= |s|
    ensures |r| == |s|
    ensures forall i {:trigger r[i]} :: 0 <= i < |s| ==> r[i] == if at <= i < at + |data| then data[i - at] else s[i]
  {
    seq(|s|, i requires 0 <= i < |s| => if at <= i < at + |data| then data[i - at] else s[i])
  }

  /** A slice away from the patch, and one inside it. */
  lemma PatchAway(s: seq<Byte>, at: nat, data: seq<Byte>, a: nat, n: nat)
    requires at + |data| <= |s| && a + n <= |s| && (a + n <= at || at + |data| <= a)
    ensures Patch(s, at, data)[a..a + n] == s[a..a + n]
  {
    var r := Patch(s, at, data);
    var x, y := r[a..a + n], s[a..a + n];
    forall i | 0 <= i < n ensures x[i] == y[i] { assert x[i] == r[a + i]; }
  }

  lemma PatchWithin(s: seq<Byte>, at: nat, data: seq<Byte>, a: nat, n: nat)
    requires at + |data| <= |s| && at <= a && a + n <= at + |data|
    ensures Patch(s, at, data)[a..a + n] == data[a - at..a - at + n]
  {
    var r := Patch(s, at, data);
    var x, y := r[a..a + n], data[a - at..a - at + n];
    forall i | 0 <= i < n ensures x[i] == y[i] { assert x[i] == r[a + i]; }
  }

  function Zeros(n: nat): seq<Byte> { seq(n, _ => 0) }

  /** Write-back of a dirty buffer leaves the file unchanged. */
  lemma FlushKeeps(content: seq<Byte>, secs: seq<nat>, store: seq<Byte>, c: Cache)
    requires Holds(content, secs, store, c) && c.dirty && 512 * c.sect + 512 <= |store|
    ensures Holds(content, secs, Patch(store, 512 * c.sect, c.bytes), c.(dirty := false))
  {
  }

  /** The buffer has the bytes of its sector, or newer ones. */
  ghost predicate Coherent(store: seq<Byte>, c: Cache) {
    |c.bytes| == 512 && (c.sect != 0 && !c.dirty ==> 512 * c.sect + 512 <= |store| && c.bytes == store[512 * c.sect..512 * c.sect + 512])
  }

  /** content with data from position p on, which may extend it. */
  function Overwrite(content: seq<Byte>, p: nat, data: seq<Byte>): (r: seq<Byte>)
    requires p <= |content|
    ensures |r| == if p + |data| <= |content| then |content| else p + |data|
    ensures forall i {:trigger r[i]} :: 0 <= i < |r| ==> r[i] == if p <= i < p + |data| then data[i - p] else content[i]
  {
    if p + |data| <= |content| then content[..p] + data + content[p + |data|..] else content[..p] + data
  }

  lemma OverwriteNothing(content: seq<Byte>, p: nat, data: seq<Byte>)
    requires p <= |content| && data == []
    ensures Overwrite(content, p, data) == content
  {
  }

  /** Two consecutive pieces written one after the other. */
  lemma OverwriteOn(content: seq<Byte>, p: nat, data: seq<Byte>, i: nat, n: nat)
    requires p <= |content| && i + n <= |data|
    ensures Overwrite(Overwrite(content, p, data[..i]), p + i, data[i..i + n]) == Overwrite(content, p, data[..i + n])
  {
  }

  /** A partial write into the buffered sector changes exactly the bytes written. */
  lemma BufferWrite(content: seq<Byte>, secs: seq<nat>, store: seq<Byte>, c: Cache, p: nat, data: seq<Byte>)
    requires Holds(content, secs, store, c) && p <= |content| && p / 512 < |secs|
    requires c.sect == secs[p / 512] && p % 512 + |data| <= 512
    requires (Coherent(store, c) && c.sect != 0) || (p == |content| && p % 512 == 0 && !c.dirty)
    ensures Holds(Overwrite(content, p, data), secs, store, Cache(c.sect, true, Patch(c.bytes, p % 512, data)))
  {
    var content', c' := Overwrite(content, p, data), Cache(c.sect, true, Patch(c.bytes, p % 512, data));
    EndInSector(p, |data|, |secs|);
    forall i {:trigger content'[i]} | 0 <= i < |content'| ensures content'[i] == ViewAt(secs, store, c', i) {
      if p <= i < p + |data| {
        SameSector(p, i - p);
      } else {
        assert content'[i] == content[i] == ViewAt(secs, store, c, i);
        if i / 512 == p / 512 { BufferByte(secs, store, c, p, i); }
      }
    }
  }

  /** In the buffered sector the file shows the bytes of the buffer. */
  lemma BufferByte(secs: seq<nat>, store: seq<Byte>, c: Cache, p: nat, i: nat)
    requires SecsOk(secs, |store|) && |c.bytes| == 512 && p / 512 < |secs| && i / 512 == p / 512
    requires c.sect == secs[p / 512]
    requires Coherent(store, c) && c.sect != 0
    ensures ViewAt(secs, store, c, i) == c.bytes[i % 512]
  {
    if !c.dirty {
      var b := 512 * c.sect;
      assert c.bytes[i % 512] == store[b..b + 512][i % 512];
    }
  }

  /** Sectors k.. of the file are the consecutive sectors s.. of the medium, cc of them. */
  ghost predicate RunAt(secs: seq<nat>, k: nat, s: nat, cc: nat) {
    k + cc <= |secs| && forall j {:trigger secs[j]} :: k <= j < k + cc ==> secs[j] == s + (j - k)
  }

  /** Only the run's own places in the file use the run's sectors. */
  lemma RunIsOwn(secs: seq<nat>, size: nat, k: nat, s: nat, cc: nat, j: nat)
    requires SecsOk(secs, size) && RunAt(secs, k, s, cc) && j < |secs| && s <= secs[j] < s + cc
    ensures k <= j < k + cc
  {
    var t := k + (secs[j] - s);
    assert secs[t] == secs[j];
  }

  /** What the buffer is after a direct write of `data` to the sectors s.. : refilled if it was overwritten. */
  function Refilled(c: Cache, s: nat, data: seq<Byte>): Cache {
    if 512 * s <= 512 * c.sect && 512 * c.sect + 512 <= 512 * s + |data|
    then Cache(c.sect, false, data[512 * (c.sect - s)..512 * (c.sect - s) + 512]) else c
  }

  /** A direct transfer of whole sectors changes exactly the bytes written. */
  lemma DirectWrite(content: seq<Byte>, secs: seq<nat>, store: seq<Byte>, c: Cache, p: nat, s: nat, cc: nat, data: seq<Byte>)
    requires Holds(content, secs, store, c) && !c.dirty && p <= |content| && p % 512 == 0
    requires RunAt(secs, p / 512, s, cc) && |data| == 512 * cc && 512 * s + |data| <= |store|
    ensures Holds(Overwrite(content, p, data), secs, Patch(store, 512 * s, data), Refilled(c, s, data))
  {
    var content', store', c' := Overwrite(content, p, data), Patch(store, 512 * s, data), Refilled(c, s, data);
    forall i {:trigger content'[i]} | 0 <= i < |content'| ensures content'[i] == ViewAt(secs, store', c', i) {
      if p <= i < p + |data| {
        assert secs[i / 512] == s + (i / 512 - p / 512);
      } else {
        if s <= secs[i / 512] < s + cc { RunIsOwn(secs, |store|, p / 512, s, cc, i / 512); }
        assert content'[i] == content[i];
      }
    }
  }

  lemma DirectWriteCoherent(store: seq<Byte>, c: Cache, s: nat, cc: nat, data: seq<Byte>)
    requires Coherent(store, c) && !c.dirty && |data| == 512 * cc && 512 * s + |data| <= |store|
    ensures Coherent(Patch(store, 512 * s, data), Refilled(c, s, data))
  {
    var store', c' := Patch(store, 512 * s, data), Refilled(c, s, data);
    if c'.sect != 0 {
      assert c'.bytes == store'[512 * c.sect..512 * c.sect + 512];
    }
  }

  /** What a direct read delivers: the medium, with a dirty buffered sector put in its place. */
  function Fetched(store: seq<Byte>, c: Cache, s: nat, cc: nat): (r: seq<Byte>)
    requires 512 * s + 512 * cc <= |store| && |c.bytes| == 512
    ensures |r| == 512 * cc
  {
    var raw := store[512 * s..512 * s + 512 * cc];
    if c.dirty && s <= c.sect < s + cc then Patch(raw, 512 * (c.sect - s), c.bytes) else raw
  }

  /** A direct transfer of whole sectors delivers the file's bytes. */
  lemma DirectRead(content: seq<Byte>, secs: seq<nat>, store: seq<Byte>, c: Cache, p: nat, s: nat, cc: nat)
    requires Holds(content, secs, store, c) && p % 512 == 0 && p + 512 * cc <= |content|
    requires RunAt(secs, p / 512, s, cc) && 512 * s + 512 * cc <= |store|
    ensures Fetched(store, c, s, cc) == content[p..p + 512 * cc]
  {
    var r := Fetched(store, c, s, cc);
    forall j | 0 <= j < 512 * cc ensures r[j] == content[p + j] {
      var i := p + j;
      assert secs[i / 512] == s + (i / 512 - p / 512);
      assert content[i] == ViewAt(secs, store, c, i);
    }
  }

  lemma SameSector(p: nat, j: nat)
    requires p % 512 + j < 512
    ensures (p + j) / 512 == p / 512 && (p + j) % 512 == p % 512 + j
  {
  }

  lemma EndInSector(p: nat, n: nat, m: nat)
    requires p / 512 < m && p % 512 + n <= 512
    ensures p + n <= 512 * m
  {
  }

  /** Behind whole sectors. */
  lemma WholeSectors(p: nat, cc: nat)
    requires p % 512 == 0 && cc > 0
    ensures (p + 512 * cc - 1) / 512 == p / 512 + cc - 1 && (p + 512 * cc) % 512 == 0
  {
  }

  lemma SameSectorBack(p: nat)
    requires p % 512 != 0
    ensures p > 0 && (p - 1) / 512 == p / 512
  {
  }

  /** The bytes of the buffered sector are the file's bytes. */
  lemma BufferRead(content: seq<Byte>, secs: seq<nat>, store: seq<Byte>, c: Cache, p: nat, n: nat)
    requires Holds(content, secs, store, c) && p + n <= |content| && p / 512 < |secs|
    requires c.sect == secs[p / 512] && c.sect != 0 && Coherent(store, c) && p % 512 + n <= 512
    ensures c.bytes[p % 512..p % 512 + n] == content[p..p + n]
  {
    var x, y := c.bytes[p % 512..p % 512 + n], content[p..p + n];
    forall j | 0 <= j < n ensures x[j] == y[j] {
      SameSector(p, j);
      BufferByte(secs, store, c, p, p + j);
      assert content[p + j] == ViewAt(secs, store, c, p + j);
    }
  }

  /** The file depends only on its own sectors. */
  lemma HoldsFrame(content: seq<Byte>, secs: seq<nat>, store: seq<Byte>, store': seq<Byte>, c: Cache)
    requires Holds(content, secs, store, c) && |store'| == |store|
    requires forall k {:trigger secs[k]} :: 0 <= k < |secs| ==> store'[512 * secs[k]..512 * secs[k] + 512] == store[512 * secs[k]..512 * secs[k] + 512]
    ensures Holds(content, secs, store', c)
  {
    forall i {:trigger content[i]} | 0 <= i < |content| ensures content[i] == ViewAt(secs, store', c, i) {
      var b := 512 * secs[i / 512];
      assert store'[b..b + 512][i % 512] == store[b..b + 512][i % 512];
    }
  }

  lemma HoldsMoreSecs(content: seq<Byte>, secs: seq<nat>, more: seq<nat>, store: seq<Byte>, c: Cache)
    requires Holds(content, secs, store, c) && SecsOk(secs + more, |store|)
    ensures Holds(content, secs + more, store, c)
  {
  }

  lemma HoldsPrefix(content: seq<Byte>, secs: seq<nat>, store: seq<Byte>, c: Cache, p: nat, m: nat)
    requires Holds(content, secs, store, c) && m <= |secs| && p <= |content| && p <= 512 * m
    ensures Holds(content[..p], secs[..m], store, c)
  {
    var content', secs' := content[..p], secs[..m];
    forall i {:trigger content'[i]} | 0 <= i < p ensures content'[i] == ViewAt(secs', store, c, i) {
      assert content'[i] == content[i];
    }
  }

  /** The content is what the medium holds in the file's sectors. */
  ghost predicate OnMedium(content: seq<Byte>, secs: seq<nat>, store: seq<Byte>) {
    && SecsOk(secs, |store|) && |content| <= 512 * |secs|
    && forall i {:trigger content[i]} :: 0 <= i < |content| ==> content[i] == store[Addr(secs, i)]
  }

  lemma CleanIsOnMedium(content: seq<Byte>, secs: seq<nat>, store: seq<Byte>, c: Cache)
    requires Holds(content, secs, store, c) && !c.dirty
    ensures OnMedium(content, secs, store)
  {
  }

  /** Content of the same length on the same sectors is the same. */
  lemma OneContent(content: seq<Byte>, content': seq<Byte>, secs: seq<nat>, store: seq<Byte>)
    requires OnMedium(content, secs, store) && OnMedium(content', secs, store) && |content| == |content'|
    ensures content == content'
  {
    forall i | 0 <= i < |content| ensures content[i] == content'[i] { assert content[i] == store[Addr(secs, i)]; }
  }

  /** The file stretched to `size` bytes: the new ones are whatever the sectors hold. */
  ghost function Stretched(content: seq<Byte>, secs: seq<nat>, store: seq<Byte>, c: Cache, size: nat): (r: seq<Byte>)
    requires Holds(content, secs, store, c) && size <= 512 * |secs|
    ensures |content| <= size ==> |r| == size && content <= r
    ensures Holds(r, secs, store, c)
  {
    if size <= |content| then content
    else seq(size, i requires 0 <= i < size => if i < |content| then content[i] else ViewAt(secs, store, c, i))
  }

  lemma PatchPatch(b: seq<Byte>, at: nat, raw: seq<Byte>, o: nat, data: seq<Byte>)
    requires at + |raw| <= |b| && o + |data| <= |raw|
    ensures Patch(Patch(b, at, raw), at + o, data) == Patch(b, at, Patch(raw, o, data))
  {
  }

  lemma PatchNothing(b: seq<Byte>, at: nat)
    requires at <= |b|
    ensures Patch(b, at, []) == b
  {
  }

  /** Two consecutive pieces of a file delivered one after the other. */
  lemma PatchOn(b: seq<Byte>, content: seq<Byte>, f0: nat, f1: nat, f2: nat)
    requires f0 <= f1 <= f2 <= |content| && f2 - f0 <= |b|
    ensures Patch(Patch(b, 0, content[f0..f1]), f1 - f0, content[f1..f2]) == Patch(b, 0, content[f0..f2])
  {
  }

  lemma PatchAll(b: seq<Byte>, data: seq<Byte>)
    requires |b| == |data|
    ensures Patch(b, 0, data) == data
  {
  }

  lemma SliceOfSlice(s: seq<Byte>, at: nat, n: nat, o: nat, m: nat)
    requires at + n <= |s| && o + m <= n
    ensures s[at..at + n][o..o + m] == s[at + o..at + o + m]
  {
    var t, u := s[at..at + n][o..o + m], s[at + o..at + o + m];
    assert |t| == |u| == m;
    forall i | 0 <= i < m ensures t[i] == u[i] { assert t[i] == s[at..at + n][o + i]; }
  }

  lemma CleanBufferIsFree(content: seq<Byte>, secs: seq<nat>, store: seq<Byte>, c: Cache, c': Cache)
    requires Holds(content, secs, store, c) && !c.dirty && !c'.dirty && |c'.bytes| == 512
    ensures Holds(content, secs, store, c')
  {
  }

  /** mem_cpy between buffers. */
  method MemCpy(dst: array<Byte>, d: nat, src: array<Byte>, s: nat, n: nat)
    requires dst != src && d + n <= dst.Length && s + n <= src.Length
    modifies dst
    ensures dst[..] == Patch(old(dst[..]), d, src[s..s + n])
  {
    var j := 0;
    while j < n
      invariant 0 <= j <= n
      invariant forall k {:trigger dst[k]} :: 0 <= k < dst.Length ==> dst[k] == if d <= k < d + j then src[s + (k - d)] else old(dst[k])
    {
      dst[d + j] := src[s + j];
      j := j + 1;
    }
  }
}
