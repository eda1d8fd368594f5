/** f_mkfs: planning and writing a FAT12, FAT16 or FAT32 volume that find_volume accepts. */
module Mkfs {
  import opened Machine
  import opened Bits
  import opened Geometry
  import opened DataArea
  import opened Mount
  import opened Chains
  import opened DiskIo

  /** The format options FM_FAT, FM_FAT32 and FM_SFD. */
  datatype Options = Options(fat: bool, fat32: bool, sfd: bool)

  /** What f_mkfs decides: the type, the cluster size and the sizes of the areas, in sectors. */
  datatype Plan = Plan(fmt: FatType, pau: nat, szRsv: nat, szFat: nat, szDir: nat, nClst: nat)

  /** Cluster size selection: double for every boundary of the table the volume reaches. */
  method AutoUnit(table: seq<nat>, n: nat) returns (pau: nat)
    requires |table| <= 6
    ensures PowerOfTwo(pau) && 1 <= pau <= 64 && Doublings(Reached(table, n, 0), pau)
  {
    var i := 0;
    pau := 1;
    while i < |table| && table[i] <= n
      invariant 0 <= i <= |table| && PowerOfTwo(pau) && 1 <= pau
      invariant Doublings(i, pau) && Reached(table, n, 0) == Reached(table, n, i)
    {
      Doubled(pau);
      pau := 2 * pau;
      i := i + 1;
    }
  }

  /** How many boundaries of a table the number n reaches. */
  function Reached(table: seq<nat>, n: nat, i: nat): nat
    requires i <= |table|
    decreases |table| - i
  {
    if i < |table| && table[i] <= n then Reached(table, n, i + 1) else i
  }

  predicate Doublings(i: nat, pau: nat) {
    match i
    case 0 => pau == 1
    case 1 => pau == 2
    case 2 => pau == 4
    case 3 => pau == 8
    case 4 => pau == 16
    case 5 => pau == 32
    case 6 => pau == 64
    case _ => false
  }

  /** Sectors of a FAT for a first guess of the number of clusters, in DWORD arithmetic. */
  function GuessFat(fmt: FatType, n: nat): nat {
    match fmt
    case Fat32 => Wrap32(n * 4 + 8 + 511) / 512
    case Fat16 => Wrap32(n * 2 + 4 + 511) / 512
    case Fat12 => ((n * 3 + 1) / 2 + 3 + 511) / 512
  }

  /** Sectors in front of the data area. */
  function Overhead(p: Plan): nat { p.szRsv + p.szFat + p.szDir }

  /** The plan for one type and one cluster size. */
  function Draft(fmt: FatType, pau: nat, szVol: Word32): (p: Plan)
    requires pau > 0
  {
    var n := szVol / pau;
    var t := if fmt == Fat32 then Fat32 else if n > MAX_FAT12 then fmt else Fat12;
    var szRsv := if t == Fat32 then 32 else 1;
    var szDir := if t == Fat32 then 0 else 512 * 32 / 512;
    var k := szRsv + GuessFat(t, n) + szDir;
    Plan(t, pau, szRsv, GuessFat(t, n), szDir, if k <= szVol then (szVol - k) / pau else 0)
  }

  /** A plan that can be carried out on szVol sectors and that find_volume will read back as it is. */
  ghost predicate PlanOk(p: Plan, szVol: nat) {
    && PowerOfTwo(p.pau) && p.pau <= 128
    && Overhead(p) + 16 * p.pau <= szVol
    && p.nClst == (szVol - Overhead(p)) / p.pau
    && 16 <= p.nClst <= MAX_FAT32 && p.fmt == TypeOf(p.nClst)
    && FatBytes(p.fmt, p.nClst + 2) <= 512 * p.szFat
    && (if p.fmt == Fat32 then p.szRsv == 32 && p.szDir == 0 else p.szRsv == 1 && p.szDir == 32 && p.szFat < 0x1_0000)
    && 0 < p.szFat < 0x1_0000_0000
  }

  lemma DivMonotone(x: nat, y: nat, p: nat)
    requires p > 0 && x <= y
    ensures x / p <= y / p
  {
    var m, n := x / p, y / p;
    assert x == p * m + x % p && y == p * n + y % p;
    assert p * (n + 1) == p * n + p;
    if m > n { MulMonotone(p, n + 1, m); }
  }

  /** Taking k sectors away costs at most k clusters. */
  lemma QuotientDrop(a: nat, k: nat, p: nat)
    requires p > 0 && k <= a
    ensures a / p - k <= (a - k) / p <= a / p
  {
    DivMonotone(a - k, a, p);
    MulMonotone(k, 1, p);
    DivMonotone(a, a - k + k * p, p);
    var q, r := (a - k) / p, (a - k) % p;
    assert a - k == q * p + r;
    assert (q + k) * p == q * p + k * p;
    DivModUnique(a - k + k * p, p, q + k, r);
  }

  /** The final number of clusters against the first guess. */
  lemma DraftClusters(fmt: FatType, pau: nat, szVol: Word32)
    requires pau > 0 && Overhead(Draft(fmt, pau, szVol)) <= szVol
    ensures var p := Draft(fmt, pau, szVol); szVol / pau - Overhead(p) <= p.nClst <= szVol / pau
  {
    QuotientDrop(szVol, Overhead(Draft(fmt, pau, szVol)), pau);
  }

  lemma FatFits32(n: nat, m: nat)
    requires m <= n <= MAX_FAT32
    ensures FatBytes(Fat32, m + 2) <= 512 * GuessFat(Fat32, n)
    ensures 0 < GuessFat(Fat32, n)
  {
  }

  /** A guess that wrapped, or that was made for far too many clusters, leaves too many clusters for FAT16. */
  lemma FatFits16(n: nat, m: nat)
    requires n < 0x1_0000_0000 && n - 33 - GuessFat(Fat16, n) <= m <= n && m <= MAX_FAT16
    ensures FatBytes(Fat16, m + 2) <= 512 * GuessFat(Fat16, n)
    ensures 0 < GuessFat(Fat16, n) < 0x1_0000
  {
    assert GuessFat(Fat16, n) <= 0x80_0000;
  }

  lemma FatFits12(n: nat, m: nat)
    requires m <= n <= MAX_FAT12
    ensures FatBytes(Fat12, m + 2) <= 512 * GuessFat(Fat12, n)
    ensures 0 < GuessFat(Fat12, n) < 0x1_0000
  {
    assert (m + 2) * 3 / 2 + (m + 2) % 2 <= (m * 3 + 1) / 2 + 3;
  }

  /** The checks f_mkfs makes on a draft are enough. */
  lemma DraftOk(fmt: FatType, pau: nat, szVol: Word32)
    requires PowerOfTwo(pau) && pau <= 128 && fmt != Fat12
    requires var p := Draft(fmt, pau, szVol);
      && Overhead(p) + 16 * pau <= szVol && p.nClst <= MAX_FAT32 && p.fmt == TypeOf(p.nClst)
      && (p.fmt == Fat32 ==> szVol / pau <= MAX_FAT32)
    ensures PlanOk(Draft(fmt, pau, szVol), szVol)
  {
    var p := Draft(fmt, pau, szVol);
    Sixteen(szVol - Overhead(p), pau);
    DraftFat(fmt, pau, szVol);
  }

  lemma DraftFat(fmt: FatType, pau: nat, szVol: Word32)
    requires 0 < pau && fmt != Fat12
    requires var p := Draft(fmt, pau, szVol);
      Overhead(p) <= szVol && p.nClst <= MAX_FAT32 && p.fmt == TypeOf(p.nClst) && (p.fmt == Fat32 ==> szVol / pau <= MAX_FAT32)
    ensures var p := Draft(fmt, pau, szVol); FatBytes(p.fmt, p.nClst + 2) <= 512 * p.szFat && 0 < p.szFat < 0x1_0000_0000 && (p.fmt != Fat32 ==> p.szFat < 0x1_0000)
  {
    var p := Draft(fmt, pau, szVol);
    DraftClusters(fmt, pau, szVol);
    Bounded(szVol, pau);
    FatFits(p.fmt, szVol / pau, p.nClst);
  }

  lemma Bounded(a: nat, p: nat)
    requires p > 0
    ensures a / p <= a
  {
    if a / p > a { MulMonotone(a / p, 1, p); }
  }

  lemma FatFits(t: FatType, n: nat, m: nat)
    requires n < 0x1_0000_0000 && n - 33 - GuessFat(t, n) <= m + (if t == Fat32 then 32 else 0) && m <= n && t == TypeOf(m)
    requires t == Fat32 ==> n <= MAX_FAT32
    requires t == Fat12 ==> n <= MAX_FAT12
    ensures FatBytes(t, m + 2) <= 512 * GuessFat(t, n)
    ensures 0 < GuessFat(t, n) < if t == Fat32 then 0x1_0000_0000 else 0x1_0000
  {
    match t
    case Fat32 => FatFits32(n, m);
    case Fat16 => FatFits16(n, m);
    case Fat12 => FatFits12(n, m);
  }

  lemma Sixteen(a: nat, p: nat)
    requires p > 0 && 16 * p <= a
    ensures a / p >= 16
  {
    assert a == a / p * p + a % p;
    if a / p <= 15 { MulMonotone(p, a / p, 15); }
  }

  lemma Halved(c: nat)
    requires PowerOfTwo(c) && c / 2 != 0
    ensures PowerOfTwo(c / 2)
  {
  }

  /** The cluster size of one turn: the given one or the automatic choice. */
  method Unit(fmt: FatType, szVol: Word32, au: nat) returns (pau: nat)
    requires au == 0 || (PowerOfTwo(au) && au <= 128)
    ensures PowerOfTwo(pau) && 1 <= pau <= 128 && (au != 0 ==> pau == au)
    ensures au == 0 ==> pau <= 64 && pau == if fmt == Fat32 then AutoPau32(szVol) else AutoPau(szVol)
  {
    ReachedFat(szVol / 0x1000);
    ReachedFat32(szVol / 0x2_0000);
    pau := au;
    if pau == 0 {
      if fmt == Fat32 {
        pau := AutoUnit([1, 2, 4, 8, 16, 32], szVol / 0x2_0000);
      } else {
        pau := AutoUnit([1, 4, 16, 64, 256, 512], szVol / 0x1000);
      }
    }
  }

  /** The automatic cluster size for FAT12 and FAT16, and for FAT32. */
  function AutoPau(sz: nat): nat {
    if sz < 0x1000 then 1 else if sz < 0x4000 then 2 else if sz < 0x1_0000 then 4 else if sz < 0x4_0000 then 8
    else if sz < 0x10_0000 then 16 else if sz < 0x20_0000 then 32 else 64
  }

  function AutoPau32(sz: nat): nat {
    if sz < 0x2_0000 then 1 else if sz < 0x4_0000 then 2 else if sz < 0x8_0000 then 4 else if sz < 0x10_0000 then 8
    else if sz < 0x20_0000 then 16 else if sz < 0x40_0000 then 32 else 64
  }

  lemma ReachedFat(n: nat)
    ensures Reached([1, 4, 16, 64, 256, 512], n, 0) ==
      if n < 1 then 0 else if n < 4 then 1 else if n < 16 then 2 else if n < 64 then 3 else if n < 256 then 4 else if n < 512 then 5 else 6
  {
    var t := [1, 4, 16, 64, 256, 512];
    assert Reached(t, n, 5) == if n < 512 then 5 else 6;
    assert Reached(t, n, 3) == if n < 64 then 3 else if n < 256 then 4 else Reached(t, n, 5);
    assert Reached(t, n, 1) == if n < 4 then 1 else if n < 16 then 2 else Reached(t, n, 3);
  }

  lemma ReachedFat32(n: nat)
    ensures Reached([1, 2, 4, 8, 16, 32], n, 0) ==
      if n < 1 then 0 else if n < 2 then 1 else if n < 4 then 2 else if n < 8 then 3 else if n < 16 then 4 else if n < 32 then 5 else 6
  {
    var t := [1, 2, 4, 8, 16, 32];
    assert Reached(t, n, 5) == if n < 32 then 5 else 6;
    assert Reached(t, n, 3) == if n < 8 then 3 else if n < 16 then 4 else Reached(t, n, 5);
    assert Reached(t, n, 1) == if n < 2 then 1 else if n < 4 then 2 else Reached(t, n, 3);
  }

  /** A type and cluster size that the loop settles on. */
  ghost predicate Good(fmt: FatType, pau: nat, sz: Word32)
    requires pau > 0
  {
    var p := Draft(fmt, pau, sz);
    && (p.fmt == Fat32 ==> MAX_FAT16 < sz / pau <= MAX_FAT32)
    && Overhead(p) + 16 * pau <= sz && p.fmt == TypeOf(p.nClst)
  }

  /** The largest volume for FAT16 with 64 sectors a cluster and with 128, and the smallest one for FAT32. */
  const TOP16: nat := 4193952
  const TOP16_128: nat := 8387616
  const BOTTOM32: nat := 66075

  /** The first attempt with cluster size c fits, or the next size fits, or the volume is too large for FAT16 with 64 sectors. */
  ghost predicate Settles(sz: Word32, c: nat)
    requires c > 0
  {
    var p := Draft(Fat16, c, sz);
    && Overhead(p) + 16 * c <= sz
    && (Good(Fat16, c, sz) || (p.fmt == Fat16 && (p.nClst <= MAX_FAT12 || p.nClst > MAX_FAT16) && c <= 32 && Good(Fat16, 2 * c, sz))
        || (p.fmt == Fat16 && p.nClst > MAX_FAT16 && c == 64 && sz > TOP16))
  }

  lemma Settles1(sz: Word32)
    requires 128 <= sz < 0x1000
    ensures Settles(sz, 1)
  {
  }

  lemma Settles2(sz: Word32)
    requires 0x1000 <= sz < 0x4000
    ensures Settles(sz, 2)
  {
  }

  lemma Settles4(sz: Word32)
    requires 0x4000 <= sz < 0x1_0000
    ensures Settles(sz, 4)
  {
  }

  lemma Settles8(sz: Word32)
    requires 0x1_0000 <= sz < 0x4_0000
    ensures Settles(sz, 8)
  {
  }

  lemma Settles16(sz: Word32)
    requires 0x4_0000 <= sz < 0x10_0000
    ensures Settles(sz, 16)
  {
  }

  lemma Settles32(sz: Word32)
    requires 0x10_0000 <= sz < 0x20_0000
    ensures Settles(sz, 32)
  {
  }

  lemma Settles64(sz: Word32)
    requires 0x20_0000 <= sz
    ensures Settles(sz, 64) && (Good(Fat16, 64, sz) ==> sz <= TOP16)
  {
  }

  /** The automatic cluster size on FAT12 and FAT16. */
  lemma AutoSettles(sz: Word32)
    requires 128 <= sz
    ensures Settles(sz, AutoPau(sz)) && (Good(Fat16, AutoPau(sz), sz) ==> sz <= TOP16)
    ensures AutoPau(sz) <= 32 ==> sz <= TOP16
  {
    if sz < 0x1000 { Settles1(sz); } else if sz < 0x4000 { Settles2(sz); } else if sz < 0x1_0000 { Settles4(sz); }
    else if sz < 0x4_0000 { Settles8(sz); } else if sz < 0x10_0000 { Settles16(sz); } else if sz < 0x20_0000 { Settles32(sz); }
    else { Settles64(sz); }
  }

  /** FAT16 with clusters of 128 sectors is the last resort where FAT32 is not allowed. */
  lemma Settles128(sz: Word32)
    requires sz > TOP16
    ensures Good(Fat16, 128, sz) <==> sz <= TOP16_128
    ensures Draft(Fat16, 128, sz).fmt == Fat16
  {
    if sz <= TOP16_128 { Fits128(sz); } else { TooLarge128(sz); }
  }

  lemma Fits128(sz: Word32)
    requires TOP16 < sz <= TOP16_128
    ensures Good(Fat16, 128, sz) && Draft(Fat16, 128, sz).fmt == Fat16
  {
  }

  lemma TooLarge128(sz: Word32)
    requires sz > TOP16_128
    ensures !Good(Fat16, 128, sz) && Draft(Fat16, 128, sz).fmt == Fat16
  {
  }

  /** The same for FAT32: the first attempt fits, or half its cluster size does, exactly from a certain size on. */
  ghost predicate SettlesAs32(sz: Word32, c: nat)
    requires c > 0
  {
    var p := Draft(Fat32, c, sz);
    && MAX_FAT16 < sz / c <= MAX_FAT32 && Overhead(p) + 16 * c <= sz
    && (Good(Fat32, c, sz) || (p.nClst <= MAX_FAT16 && c / 2 > 0 && Good(Fat32, c / 2, sz)))
  }

  lemma Large1(sz: Word32)
    requires sz < 0x2_0000
    ensures if BOTTOM32 <= sz then SettlesAs32(sz, 1) else !Good(Fat32, 1, sz)
  {
  }

  /** The size of a FAT32 plan for n clusters. */
  lemma Overhead32(sz: Word32, c: nat)
    requires c > 0 && sz / c <= 0x800_0000
    ensures Overhead(Draft(Fat32, c, sz)) <= 34 + sz / c / 128
  {
  }

  /** Enough clusters for FAT32 at size c, and enough to spare at half that size. */
  lemma Large(sz: Word32, c: nat)
    requires 2 <= c <= 64 && MAX_FAT16 < sz / c <= 0x800_0000 && 0x2_0000 <= sz / (c / 2) <= 0x800_0000
    ensures SettlesAs32(sz, c)
  {
    Overhead32(sz, c);
    Overhead32(sz, c / 2);
    Bounded(sz, c);
    Bounded(sz, c / 2);
    DraftClusters(Fat32, c, sz);
    DraftClusters(Fat32, c / 2, sz);
  }

  lemma AutoSettles32(sz: Word32)
    ensures if BOTTOM32 <= sz then SettlesAs32(sz, AutoPau32(sz)) else AutoPau32(sz) == 1 && !Good(Fat32, 1, sz)
  {
    if sz < 0x2_0000 { Large1(sz); } else if sz < 0x4_0000 { Large(sz, 2); } else if sz < 0x8_0000 { Large(sz, 4); }
    else if sz < 0x10_0000 { Large(sz, 8); } else if sz < 0x20_0000 { Large(sz, 16); } else if sz < 0x40_0000 { Large(sz, 32); }
    else { Large(sz, 64); }
  }

  /** The type and cluster size f_mkfs chooses on its own, by the size of the volume, where it begins with FAT12/16 and with FAT32. */
  function Choice16(sz: nat): (FatType, nat) {
    if sz < 4086 then (Fat12, 1)
    else if sz < 8172 then (Fat12, 2)
    else if sz < 8222 then (Fat12, 4)
    else if sz < 16384 then (Fat16, 2)
    else if sz < 16394 then (Fat12, 8)
    else if sz < 65536 then (Fat16, 4)
    else if sz < 262144 then (Fat16, 8)
    else if sz < 1048576 then (Fat16, 16)
    else if sz < 2097122 then (Fat16, 32)
    else if sz <= TOP16 then (Fat16, 64)
    else (Fat16, 128)
  }

  function Choice32(sz: nat): (FatType, nat) {
    if sz < 131599 then (Fat32, 1)
    else if sz < 262649 then (Fat32, 2)
    else if sz < 524753 then (Fat32, 4)
    else if sz < 1048961 then (Fat32, 8)
    else if sz < 2097377 then (Fat32, 16)
    else if sz < 4194304 then (Fat32, 32)
    else (Fat32, 64)
  }

  function AutoChoice(sz: nat, first: FatType, opt: Options): (FatType, nat) {
    if first == Fat32 || (opt.fat32 && sz > TOP16) then Choice32(sz) else Choice16(sz)
  }

  /** The first attempt with cluster size c, or the one with twice that size, is the choice if it fits. */
  ghost predicate Chosen(sz: Word32, c: nat)
    requires c > 0
  {
    && (Good(Fat16, c, sz) ==> Choice16(sz) == (Draft(Fat16, c, sz).fmt, c))
    && (!Good(Fat16, c, sz) && c <= 32 && Good(Fat16, 2 * c, sz) ==> Choice16(sz) == (Draft(Fat16, 2 * c, sz).fmt, 2 * c))
  }

  /** The same for FAT32: the first attempt has enough clusters exactly from the size on where the choice goes over to it. */
  ghost predicate Chosen32(sz: Word32, c: nat)
    requires c > 0
  {
    Choice32(sz) == (Fat32, if Draft(Fat32, c, sz).nClst > MAX_FAT16 || c == 1 then c else c / 2)
  }

  lemma Choose1(sz: Word32)
    requires 128 <= sz < 0x1000
    ensures Chosen(sz, 1)
  {
  }

  lemma Choose2(sz: Word32)
    requires 0x1000 <= sz < 0x4000
    ensures Chosen(sz, 2)
  {
    if sz < 8172 { Choose2Low(sz); } else { Choose2High(sz); }
  }

  lemma Choose2Low(sz: Word32)
    requires 0x1000 <= sz < 8172
    ensures Chosen(sz, 2)
  {
    assert sz / 2 <= MAX_FAT12;
  }

  lemma Choose2High(sz: Word32)
    requires 8172 <= sz < 0x4000
    ensures Chosen(sz, 2)
  {
    assert sz / 2 > MAX_FAT12 && sz / 4 <= MAX_FAT12 + 10;
  }

  lemma Choose4(sz: Word32)
    requires 0x4000 <= sz < 0x1_0000
    ensures Chosen(sz, 4)
  {
  }

  lemma Choose8(sz: Word32)
    requires 0x1_0000 <= sz < 0x4_0000
    ensures Chosen(sz, 8)
  {
  }

  lemma Choose16(sz: Word32)
    requires 0x4_0000 <= sz < 0x10_0000
    ensures Chosen(sz, 16)
  {
  }

  lemma Choose32(sz: Word32)
    requires 0x10_0000 <= sz < 0x20_0000
    ensures Chosen(sz, 32)
  {
  }

  lemma Choose64(sz: Word32)
    requires 0x20_0000 <= sz
    ensures Chosen(sz, 64)
  {
    if sz > TOP16 { Settles64(sz); }
  }

  lemma ChooseLarge1(sz: Word32)
    requires sz < 0x2_0000
    ensures Chosen32(sz, 1)
  {
  }

  lemma ChooseLarge2(sz: Word32)
    requires 0x2_0000 <= sz < 0x4_0000
    ensures Chosen32(sz, 2)
  {
  }

  lemma ChooseLarge4(sz: Word32)
    requires 0x4_0000 <= sz < 0x8_0000
    ensures Chosen32(sz, 4)
  {
  }

  lemma ChooseLarge8(sz: Word32)
    requires 0x8_0000 <= sz < 0x10_0000
    ensures Chosen32(sz, 8)
  {
  }

  lemma ChooseLarge16(sz: Word32)
    requires 0x10_0000 <= sz < 0x20_0000
    ensures Chosen32(sz, 16)
  {
  }

  lemma ChooseLarge32(sz: Word32)
    requires 0x20_0000 <= sz < 0x40_0000
    ensures Chosen32(sz, 32)
  {
  }

  lemma ChooseLarge64(sz: Word32)
    requires 0x40_0000 <= sz
    ensures Chosen32(sz, 64)
  {
  }

  lemma AutoChooses(sz: Word32)
    requires 128 <= sz
    ensures Chosen(sz, AutoPau(sz))
  {
    if sz < 0x1000 { Choose1(sz); } else if sz < 0x4000 { Choose2(sz); } else if sz < 0x1_0000 { Choose4(sz); }
    else if sz < 0x4_0000 { Choose8(sz); } else if sz < 0x10_0000 { Choose16(sz); } else if sz < 0x20_0000 { Choose32(sz); }
    else { Choose64(sz); }
  }

  lemma AutoChooses32(sz: Word32)
    ensures Chosen32(sz, AutoPau32(sz))
  {
    if sz < 0x2_0000 { ChooseLarge1(sz); } else if sz < 0x4_0000 { ChooseLarge2(sz); } else if sz < 0x8_0000 { ChooseLarge4(sz); }
    else if sz < 0x10_0000 { ChooseLarge8(sz); } else if sz < 0x20_0000 { ChooseLarge16(sz); } else if sz < 0x40_0000 { ChooseLarge32(sz); }
    else { ChooseLarge64(sz); }
  }

  /** With the automatic cluster size, planning succeeds exactly for these volumes. */
  predicate AutoFits(sz: Word32, first: FatType, opt: Options) {
    if first == Fat32 then BOTTOM32 <= sz else opt.fat32 || sz <= TOP16_128
  }

  /** What the loop tries next: the automatic size, or a fixed size that decides the matter. */
  ghost predicate OnTrack(sz: Word32, first: FatType, opt: Options, fmt: FatType, au: nat) {
    forall k {:trigger OpenTrack(k)} :: OpenTrack(k) ==>
      if au == 0 then fmt == first || (fmt == Fat32 && first == Fat16 && opt.fat32 && sz > TOP16)
      else
        && (AutoFits(sz, first, opt) <==> Good(fmt, au, sz)) && (Good(fmt, au, sz) || (fmt == Fat16 && !opt.fat32))
        && (Good(fmt, au, sz) ==> AutoChoice(sz, first, opt) == (Draft(fmt, au, sz).fmt, au))
  }

  ghost predicate OpenTrack(k: int) { true }

  /** What the loop does with a draft. */
  datatype Choice = Settle | GiveUp | Retry(fmt: FatType, au: nat)

  /** The tests of the loop, for the type and cluster size of this turn; au is 0 while the size is automatic. */
  function Judge(fmt: FatType, au: nat, pau: nat, sz: Word32, opt: Options): Choice
    requires pau > 0
  {
    var p := Draft(fmt, pau, sz);
    if p.fmt == Fat32 && (sz / pau <= MAX_FAT16 || sz / pau > MAX_FAT32) then GiveUp
    else if sz < Overhead(p) + pau * 16 then GiveUp
    else if p.fmt == Fat32 && p.nClst <= MAX_FAT16 then
      if au == 0 && pau / 2 != 0 then Retry(fmt, pau / 2) else GiveUp
    else if p.fmt == Fat16 && p.nClst > MAX_FAT16 then
      if au == 0 && pau * 2 <= 64 then Retry(fmt, pau * 2)
      else if opt.fat32 then Retry(Fat32, au)
      else if au == 0 && pau * 2 <= 128 then Retry(fmt, pau * 2)
      else GiveUp
    else if p.fmt == Fat16 && p.nClst <= MAX_FAT12 then
      if au == 0 && pau * 2 <= 128 then Retry(fmt, pau * 2) else GiveUp
    else if p.fmt == Fat12 && p.nClst > MAX_FAT12 then GiveUp
    else Settle
  }

  /** A draft the loop settles on is a good plan. */
  lemma SettledWell(fmt: FatType, au: nat, pau: nat, sz: Word32, opt: Options)
    requires fmt != Fat12 && PowerOfTwo(pau) && 1 <= pau <= 128 && Judge(fmt, au, pau, sz, opt) == Settle
    ensures PlanOk(Draft(fmt, pau, sz), sz)
  {
    DraftClusters(fmt, pau, sz);
    DraftOk(fmt, pau, sz);
  }

  /** The FAT is as short as it can be for as many clusters as the whole volume would have. */
  ghost predicate ShortestFat(p: Plan, szVol: nat)
    requires p.pau > 0
  {
    FatBytes(p.fmt, szVol / p.pau + 2) <= 512 * p.szFat < FatBytes(p.fmt, szVol / p.pau + 2) + 512
  }

  lemma SettledShort(fmt: FatType, au: nat, pau: nat, sz: Word32, opt: Options)
    requires fmt != Fat12 && PowerOfTwo(pau) && 1 <= pau <= 128 && Judge(fmt, au, pau, sz, opt) == Settle
    ensures ShortestFat(Draft(fmt, pau, sz), sz)
  {
    DraftClusters(fmt, pau, sz);
    Bounded(sz, pau);
    GuessIsShortest(Draft(fmt, pau, sz).fmt, sz / pau);
  }

  lemma GuessIsShortest(t: FatType, n: nat)
    requires n < 0x1000_0000
    ensures FatBytes(t, n + 2) <= 512 * GuessFat(t, n) < FatBytes(t, n + 2) + 512
  {
    match t
    case Fat32 => RoundedUp(4 * (n + 2));
    case Fat16 => RoundedUp(2 * (n + 2));
    case Fat12 =>
      assert (n + 2) * 3 / 2 + (n + 2) % 2 == (n * 3 + 1) / 2 + 3;
      RoundedUp((n * 3 + 1) / 2 + 3);
  }

  lemma RoundedUp(x: nat)
    ensures x <= 512 * ((x + 511) / 512) < x + 512
  {
  }

  /** A retry has another type, or a fixed cluster size that is valid. */
  lemma RetriedWell(fmt: FatType, au: nat, pau: nat, sz: Word32, opt: Options)
    requires fmt != Fat12 && PowerOfTwo(pau) && 1 <= pau <= 128 && Judge(fmt, au, pau, sz, opt).Retry?
    ensures var r := Judge(fmt, au, pau, sz, opt);
      (r.fmt == Fat32 && fmt == Fat16 && r.au == au) || (r.fmt == fmt && au == 0 && PowerOfTwo(r.au) && r.au <= 128)
  {
    Doubled(pau);
    if pau > 1 { Halved(pau); }
  }

  /** One turn of the loop with the automatic cluster size. */
  lemma Turn(sz: Word32, first: FatType, opt: Options, fmt: FatType, au: nat, pau: nat)
    requires 128 <= sz && fmt != Fat12 && first != Fat12 && OnTrack(sz, first, opt, fmt, au)
    requires pau == if au != 0 then au else if fmt == Fat32 then AutoPau32(sz) else AutoPau(sz)
    ensures match Judge(fmt, au, pau, sz, opt)
      case Settle => AutoFits(sz, first, opt) && AutoChoice(sz, first, opt) == (Draft(fmt, pau, sz).fmt, pau)
      case GiveUp => !AutoFits(sz, first, opt)
      case Retry(f, a) => OnTrack(sz, first, opt, f, a)
  {
    if au != 0 { assert OpenTrack(0); } else if fmt == Fat32 { Turn32(sz, first, opt); } else { Turn16(sz, first, opt); }
  }

  lemma Turn32(sz: Word32, first: FatType, opt: Options)
    requires first != Fat12 && OnTrack(sz, first, opt, Fat32, 0)
    ensures match Judge(Fat32, 0, AutoPau32(sz), sz, opt)
      case Settle => AutoFits(sz, first, opt) && AutoChoice(sz, first, opt) == (Fat32, AutoPau32(sz))
      case GiveUp => !AutoFits(sz, first, opt)
      case Retry(f, a) => OnTrack(sz, first, opt, f, a)
  {
    assert OpenTrack(0);
    AutoSettles32(sz);
    AutoChooses32(sz);
  }

  lemma Turn16(sz: Word32, first: FatType, opt: Options)
    requires 128 <= sz && first != Fat12 && OnTrack(sz, first, opt, Fat16, 0)
    ensures match Judge(Fat16, 0, AutoPau(sz), sz, opt)
      case Settle => AutoFits(sz, first, opt) && AutoChoice(sz, first, opt) == (Draft(Fat16, AutoPau(sz), sz).fmt, AutoPau(sz))
      case GiveUp => !AutoFits(sz, first, opt)
      case Retry(f, a) => OnTrack(sz, first, opt, f, a)
  {
    assert OpenTrack(0);
    AutoSettles(sz);
    AutoChooses(sz);
    if sz > TOP16 { Settles128(sz); }
  }

  /** FAT16 has too many clusters of the given size. */
  ghost predicate Overflows(sz: Word32, unit: nat)
    requires unit > 0
  {
    var p := Draft(Fat16, unit, sz);
    p.fmt == Fat16 && Overhead(p) + 16 * unit <= sz && p.nClst > MAX_FAT16
  }

  /** With a given cluster size, planning succeeds exactly for these volumes: the first type fits, or FAT32 where FAT16 overflows. */
  ghost predicate FixedFits(sz: Word32, unit: nat, first: FatType, opt: Options)
    requires unit > 0
  {
    Good(first, unit, sz) || (first == Fat16 && opt.fat32 && Overflows(sz, unit) && Good(Fat32, unit, sz))
  }

  ghost predicate FixedTrack(sz: Word32, unit: nat, first: FatType, opt: Options, fmt: FatType)
    requires unit > 0
  {
    fmt == first || (fmt == Fat32 && first == Fat16 && opt.fat32 && Overflows(sz, unit) && !Good(Fat16, unit, sz))
  }

  /** One turn of the loop with a given cluster size. */
  lemma FixedTurn(sz: Word32, unit: nat, first: FatType, opt: Options, fmt: FatType)
    requires unit > 0 && first != Fat12 && fmt != Fat12 && FixedTrack(sz, unit, first, opt, fmt)
    ensures match Judge(fmt, unit, unit, sz, opt)
      case Settle => FixedFits(sz, unit, first, opt)
      case GiveUp => !FixedFits(sz, unit, first, opt)
      case Retry(f, a) => a == unit && FixedTrack(sz, unit, first, opt, f)
  {
  }

  /**
   * f_mkfs's geometry loop: it terminates, a plan it settles on is a good one, and it settles exactly where AutoFits
   * says so for the automatic cluster size, and FixedFits for a given one. The automatic type and cluster size are
   * those of the table.
   */
  method PlanVolume(szVol: Word32, unit: nat, first: FatType, opt: Options) returns (res: FResult, p: Plan)
    requires unit == 0 || (PowerOfTwo(unit) && unit <= 128)
    requires first != Fat12
    ensures res == FrOk || res == FrMkfsAborted
    ensures res == FrOk ==> PlanOk(p, szVol) && ShortestFat(p, szVol)
    ensures unit == 0 && 128 <= szVol ==> (res == FrOk <==> AutoFits(szVol, first, opt))
    ensures unit == 0 && 128 <= szVol && res == FrOk ==> (p.fmt, p.pau) == AutoChoice(szVol, first, opt)
    ensures unit != 0 ==> (res == FrOk <==> FixedFits(szVol, unit, first, opt))
    ensures res == FrOk && unit != 0 ==> p.pau == unit
    ensures res == FrOk ==> (p.fmt == Fat32 ==> opt.fat32 || first == Fat32) && (first == Fat32 ==> p.fmt == Fat32)
  {
    var fmt, au := first, unit;
    while true
      invariant (fmt == Fat32 ==> opt.fat32 || first == Fat32) && (first == Fat32 ==> fmt == Fat32)
      invariant fmt != Fat12 && (au == 0 || (PowerOfTwo(au) && au <= 128))
      invariant unit == 0 && 128 <= szVol ==> OnTrack(szVol, first, opt, fmt, au)
      invariant unit != 0 ==> au == unit && FixedTrack(szVol, unit, first, opt, fmt)
      decreases fmt != Fat32, au == 0
    {
      var pau := Unit(fmt, szVol, au);
      p := Draft(fmt, pau, szVol);
      if unit == 0 && 128 <= szVol { Turn(szVol, first, opt, fmt, au, pau); }
      if unit != 0 { FixedTurn(szVol, unit, first, opt, fmt); }
      match Judge(fmt, au, pau, szVol, opt)
      case Settle =>
        SettledWell(fmt, au, pau, szVol, opt);
        SettledShort(fmt, au, pau, szVol, opt);
        return FrOk, p;
      case GiveUp =>
        return FrMkfsAborted, p;
      case Retry(f, a) =>
        RetriedWell(fmt, au, pau, szVol, opt);
        fmt, au := f, a;
    }
  }

  /** Jump code with the OEM name, and the volume label with the type name. */
  function JumpCode(): (r: seq<Byte>)
    ensures |r| == 11 && r[0] == 0xEB
  {
    [0xEB, 0xFE, 0x90, 0x4D, 0x53, 0x44, 0x4F, 0x53, 0x35, 0x2E, 0x30]
  }

  function LabelFat(): (r: seq<Byte>)
    ensures |r| == 19 && r[11..14] == [0x46, 0x41, 0x54]
  {
    [0x4E, 0x4F, 0x20, 0x4E, 0x41, 0x4D, 0x45, 0x20, 0x20, 0x20, 0x20, 0x46, 0x41, 0x54, 0x20, 0x20, 0x20, 0x20, 0x20]
  }

  function LabelFat32(): (r: seq<Byte>)
    ensures |r| == 19 && r[11..16] == [0x46, 0x41, 0x54, 0x33, 0x32]
  {
    [0x4E, 0x4F, 0x20, 0x4E, 0x41, 0x4D, 0x45, 0x20, 0x20, 0x20, 0x20, 0x46, 0x41, 0x54, 0x33, 0x32, 0x20, 0x20, 0x20]
  }

  /** The fields common to every boot record. */
  function CommonByte(p: Plan, bVol: nat, szVol: nat, i: nat): Byte {
    if i < 11 then JumpCode()[i]
    else if i < 13 then WordBytes(512)[i - 11]
    else if i == 13 then p.pau % 0x100
    else if i < 16 then WordBytes(p.szRsv)[i - 14]
    else if i == 16 then 1
    else if i < 19 then WordBytes(if p.fmt == Fat32 then 0 else 512)[i - 17]
    else if i < 21 then WordBytes(if szVol < 0x1_0000 then szVol else 0)[i - 19]
    else if i == 21 then 0xF8
    else if i < 24 then WordBytes(if p.fmt == Fat32 then 0 else p.szFat)[i - 22]
    else if i < 26 then WordBytes(63)[i - 24]
    else if i < 28 then WordBytes(255)[i - 26]
    else if i < 32 then DwordBytes(bVol)[i - 28]
    else if i < 36 then DwordBytes(if szVol < 0x1_0000 then 0 else szVol)[i - 32]
    else if i == 510 then 0x55
    else if i == 511 then 0xAA
    else 0
  }

  function Fat32Byte(p: Plan, volId: Word32, i: nat): Byte {
    if 36 <= i < 40 then DwordBytes(p.szFat)[i - 36]
    else if 44 <= i < 48 then DwordBytes(2)[i - 44]
    else if 48 <= i < 50 then WordBytes(1)[i - 48]
    else if 50 <= i < 52 then WordBytes(6)[i - 50]
    else if i == 64 then 0x80
    else if i == 66 then 0x29
    else if 67 <= i < 71 then DwordBytes(volId)[i - 67]
    else if 71 <= i < 90 then LabelFat32()[i - 71]
    else 0
  }

  function FatByte(volId: Word32, i: nat): Byte {
    if i == 36 then 0x80
    else if i == 38 then 0x29
    else if 39 <= i < 43 then DwordBytes(volId)[i - 39]
    else if 43 <= i < 62 then LabelFat()[i - 43]
    else 0
  }

  /** The boot record f_mkfs writes for a plan. */
  function BootSector(p: Plan, bVol: nat, szVol: nat, volId: Word32): (s: seq<Byte>)
    ensures |s| == 512
  {
    seq(512, i requires 0 <= i < 512 =>
      if i < 36 || i >= 510 then CommonByte(p, bVol, szVol, i)
      else if p.fmt == Fat32 then Fat32Byte(p, volId, i)
      else FatByte(volId, i))
  }

  lemma WordAt(s: seq<Byte>, i: nat, w: nat)
    requires i + 2 <= |s| && w < 0x1_0000 && s[i] == WordBytes(w)[0] && s[i + 1] == WordBytes(w)[1]
    ensures LdWord(s, i) == w
  {
    LdStWord(w);
  }

  lemma DwordAt(s: seq<Byte>, i: nat, w: Word32)
    requires i + 4 <= |s| && s[i] == DwordBytes(w)[0] && s[i + 1] == DwordBytes(w)[1] && s[i + 2] == DwordBytes(w)[2] && s[i + 3] == DwordBytes(w)[3]
    ensures LdDword(s, i) == w
  {
    LdStDword(w);
  }

  /** The fields of a boot record as find_volume reads them back. */
  lemma CommonFields(p: Plan, bVol: nat, szVol: Word32, volId: Word32)
    requires PlanOk(p, szVol)
    ensures var s := BootSector(p, bVol, szVol, volId);
      && LdWord(s, 11) == 512 && s[13] == p.pau && LdWord(s, 14) == p.szRsv && s[16] == 1
      && LdWord(s, 17) == if p.fmt == Fat32 then 0 else 512
  {
    var s := BootSector(p, bVol, szVol, volId);
    WordAt(s, 11, 512);
    WordAt(s, 14, p.szRsv);
    WordAt(s, 17, if p.fmt == Fat32 then 0 else 512);
  }

  lemma TotalFields(p: Plan, bVol: nat, szVol: Word32, volId: Word32)
    ensures var s := BootSector(p, bVol, szVol, volId);
      LdWord(s, 19) == (if szVol < 0x1_0000 then szVol else 0) && LdDword(s, 32) == (if szVol < 0x1_0000 then 0 else szVol)
  {
    var s := BootSector(p, bVol, szVol, volId);
    WordAt(s, 19, if szVol < 0x1_0000 then szVol else 0);
    DwordAt(s, 32, if szVol < 0x1_0000 then 0 else szVol);
  }

  lemma FatFields(p: Plan, bVol: nat, szVol: Word32, volId: Word32)
    requires PlanOk(p, szVol)
    ensures var s := BootSector(p, bVol, szVol, volId);
      LdWord(s, 22) == (if p.fmt == Fat32 then 0 else p.szFat) && (p.fmt == Fat32 ==> LdDword(s, 36) == p.szFat)
  {
    var s := BootSector(p, bVol, szVol, volId);
    WordAt(s, 22, if p.fmt == Fat32 then 0 else p.szFat);
    if p.fmt == Fat32 { DwordAt(s, 36, p.szFat); }
  }

  lemma Fat32Fields(p: Plan, bVol: nat, szVol: Word32, volId: Word32)
    requires p.fmt == Fat32
    ensures var s := BootSector(p, bVol, szVol, volId); LdWord(s, 42) == 0 && LdDword(s, 44) == 2 && LdWord(s, 48) == 1
  {
    var s := BootSector(p, bVol, szVol, volId);
    WordAt(s, 42, 0);
    DwordAt(s, 44, 2);
    WordAt(s, 48, 1);
  }

  lemma BpbReadBack(p: Plan, bVol: nat, szVol: Word32, volId: Word32)
    requires PlanOk(p, szVol)
    ensures var b := ReadBpb(BootSector(p, bVol, szVol, volId));
      && b.bytesPerSec == 512 && b.secPerClus == p.pau && b.rsvdSecCnt == p.szRsv && b.numFats == 1
      && b.rootEntCnt == (if p.fmt == Fat32 then 0 else 512) && TotalSectors(b) == szVol && FatSize(b) == p.szFat
      && (p.fmt == Fat32 ==> b.fsVer32 == 0 && b.rootClus32 == 2 && b.fsInfo32 == 1)
  {
    CommonFields(p, bVol, szVol, volId);
    TotalFields(p, bVol, szVol, volId);
    FatFields(p, bVol, szVol, volId);
    if p.fmt == Fat32 { Fat32Fields(p, bVol, szVol, volId); }
  }

  /** check_fs recognizes the boot record. */
  lemma BootIsRecognized(p: Plan, bVol: nat, szVol: nat, volId: Word32)
    ensures CheckFs(BootSector(p, bVol, szVol, volId)) == 0
  {
    var s := BootSector(p, bVol, szVol, volId);
    if p.fmt == Fat32 {
      assert s[82..87] == LabelFat32()[11..16];
    } else {
      assert s[54..57] == LabelFat()[11..14];
    }
  }

  /** The layout a plan stands for. */
  function PlannedGeo(p: Plan, bVol: nat): Geo {
    Geo(p.fmt, 1, p.pau, if p.fmt == Fat32 then 0 else 512, p.nClst + 2, p.szFat, bVol, bVol + p.szRsv,
        if p.fmt == Fat32 then 2 else bVol + p.szRsv + p.szFat, bVol + Overhead(p))
  }

  /** find_volume accepts what f_mkfs writes and works out the same layout. */
  lemma MountAgrees(p: Plan, bVol: Word32, szVol: Word32, volId: Word32)
    requires PlanOk(p, szVol) && bVol + szVol <= 0x1_0000_0000
    ensures Analyze(ReadBpb(BootSector(p, bVol, szVol, volId)), bVol) == Accepted(PlannedGeo(p, bVol))
  {
    BpbReadBack(p, bVol, szVol, volId);
    PlanAnalyzed(p, bVol, szVol, ReadBpb(BootSector(p, bVol, szVol, volId)));
  }

  lemma PlanAnalyzed(p: Plan, bVol: Word32, szVol: Word32, b: Bpb)
    requires PlanOk(p, szVol) && bVol + szVol <= 0x1_0000_0000
    requires b.bytesPerSec == 512 && b.secPerClus == p.pau && b.rsvdSecCnt == p.szRsv && b.numFats == 1
    requires b.rootEntCnt == (if p.fmt == Fat32 then 0 else 512) && TotalSectors(b) == szVol && FatSize(b) == p.szFat
    requires p.fmt == Fat32 ==> b.fsVer32 == 0 && b.rootClus32 == 2
    ensures Analyze(b, bVol) == Accepted(PlannedGeo(p, bVol))
  {
    LayoutAgrees(p, bVol, szVol, b);
    PowerOfTwoTest(p.pau);
    RoundUp(FatBytes(p.fmt, p.nClst + 2), p.szFat);
  }

  lemma RoundUp(x: nat, m: nat)
    requires x <= 512 * m
    ensures (x + 511) / 512 <= m
  {
  }

  lemma LayoutAgrees(p: Plan, bVol: Word32, szVol: Word32, b: Bpb)
    requires PlanOk(p, szVol) && bVol + szVol <= 0x1_0000_0000
    requires b.secPerClus == p.pau && b.rsvdSecCnt == p.szRsv && b.numFats == 1
    requires b.rootEntCnt == (if p.fmt == Fat32 then 0 else 512) && TotalSectors(b) == szVol && FatSize(b) == p.szFat
    requires p.fmt == Fat32 ==> b.rootClus32 == 2
    ensures SystemSectors(b) == Overhead(p) == Wrap32(SystemSectors(b)) && Layout(b, bVol) == PlannedGeo(p, bVol)
  {
    NoWrap(Overhead(p));
    NoWrap(bVol + p.szRsv);
    NoWrap(bVol + Overhead(p));
    NoWrap(bVol + p.szRsv + p.szFat);
  }

  /** The layout of a plan is sound on a drive that holds the volume. */
  lemma PlanIsSound(p: Plan, bVol: Word32, szVol: Word32, size: nat)
    requires PlanOk(p, szVol) && bVol + szVol <= 0x1_0000_0000 && 512 * (bVol + szVol) <= size
    ensures Sound(PlannedGeo(p, bVol), size)
  {
    ClustersFit(p.pau, szVol - Overhead(p));
    RegionsAreSound(PlannedGeo(p, bVol), size);
  }

  /** Byte k of an area that begins with `head` and is zero after it. */
  function AreaByte(head: seq<Byte>, k: int): Byte { if 0 <= k < |head| then head[k] else 0 }

  /** The part of a buffer that consists of whole sectors. */
  function Whole(n: nat): nat { n / 512 * 512 }

  /** f_mkfs's loop over an area: the first sector from the work buffer, zeros after it; the buffer ends up clear. */
  method FillArea(disk: array<Byte>, buf: array<Byte>, start: nat, count: nat, ghost head: seq<Byte>)
    requires disk != buf && 512 <= buf.Length && count > 0 && |head| <= 512
    requires 512 * (start + count) <= disk.Length
    requires forall k {:trigger buf[k]} :: 0 <= k < Whole(buf.Length) ==> buf[k] == AreaByte(head, k)
    modifies disk, buf
    ensures forall k {:trigger buf[k]} :: 0 <= k < Whole(buf.Length) ==> buf[k] == 0
    ensures forall a {:trigger disk[a]} :: 0 <= a < disk.Length ==>
      disk[a] == if 512 * start <= a < 512 * (start + count) then AreaByte(head, a - 512 * start) else old(disk[a])
  {
    var szBuf := buf.Length / 512;
    var sect, nsect := start, count;
    var n := if nsect > szBuf then szBuf else nsect;
    DiskWrite(disk, buf, 0, sect, n);
    ClearSector(buf);
    sect, nsect := sect + n, nsect - n;
    while nsect != 0
      invariant start <= sect && 0 <= nsect && sect + nsect == start + count && sect > start
      invariant forall k {:trigger buf[k]} :: 0 <= k < Whole(buf.Length) ==> buf[k] == 0
      invariant forall a {:trigger disk[a]} :: 0 <= a < disk.Length ==>
        disk[a] == if 512 * start <= a < 512 * sect then AreaByte(head, a - 512 * start) else old(disk[a])
    {
      n := if nsect > szBuf then szBuf else nsect;
      DiskWrite(disk, buf, 0, sect, n);
      sect, nsect := sect + n, nsect - n;
    }
  }

  /** mem_set(buf, 0, ss) */
  method ClearSector(buf: array<Byte>)
    requires 512 <= buf.Length
    modifies buf
    ensures forall k {:trigger buf[k]} :: 0 <= k < buf.Length ==> buf[k] == if k < 512 then 0 else old(buf[k])
  {
    var j := 0;
    while j < 512
      invariant 0 <= j <= 512
      invariant forall k {:trigger buf[k]} :: 0 <= k < buf.Length ==> buf[k] == if k < j then 0 else old(buf[k])
    {
      buf[j] := 0;
      j := j + 1;
    }
  }

  /** The first bytes of a new FAT: its reserved entries and the end mark of a FAT32 root directory. */
  function FatHead(t: FatType): (r: seq<Byte>)
    ensures |r| <= 12
  {
    match t
    case Fat32 => [0xF8, 0xFF, 0xFF, 0xFF, 0xFF, 0xFF, 0xFF, 0xFF, 0xFF, 0xFF, 0xFF, 0x0F]
    case Fat16 => [0xF8, 0xFF, 0xFF, 0xFF]
    case Fat12 => [0xF8, 0xFF, 0xFF, 0x00]
  }

  /** The table a new FAT holds: the two reserved entries, the root directory of a FAT32 volume, and zeros. */
  function NewEntry(t: FatType, c: nat): nat {
    if c == 0 then EntryMask(t) - 7 else if c == 1 then EntryMask(t) else if c == 2 && t == Fat32 then EntryMask(t) else 0
  }

  function NewTable(t: FatType, n: nat): (f: Fat)
    ensures |f| == n
  {
    seq(n, c requires 0 <= c < n => NewEntry(t, c))
  }

  /** The image has the new FAT in its FAT area. */
  ghost predicate FreshFat(g: Geo, image: seq<Byte>)
    requires Fits(g, |image|)
  {
    forall a {:trigger image[a]} :: Fat1Byte(g, a) ==> image[a] == AreaByte(FatHead(g.fsType), a - 512 * g.fatbase)
  }

  lemma FreshEntry32(g: Geo, image: seq<Byte>, c: nat)
    requires Fits(g, |image|) && FreshFat(g, image) && c < g.nFatent && g.fsType == Fat32
    ensures Entry(g, image, c) == NewEntry(Fat32, c)
  {
    EntryInFat(g, c);
    var p := EntryBytes(g, image, c);
    var h := FatHead(Fat32);
    assert p[0] == AreaByte(h, 4 * c) && p[1] == AreaByte(h, 4 * c + 1) && p[2] == AreaByte(h, 4 * c + 2) && p[3] == AreaByte(h, 4 * c + 3);
  }

  lemma FreshEntry16(g: Geo, image: seq<Byte>, c: nat)
    requires Fits(g, |image|) && FreshFat(g, image) && c < g.nFatent && g.fsType == Fat16
    ensures Entry(g, image, c) == NewEntry(Fat16, c)
  {
    EntryInFat(g, c);
    var p := EntryBytes(g, image, c);
    var h := FatHead(Fat16);
    assert p[0] == AreaByte(h, 2 * c) && p[1] == AreaByte(h, 2 * c + 1);
  }

  lemma FreshEntry12(g: Geo, image: seq<Byte>, c: nat)
    requires Fits(g, |image|) && FreshFat(g, image) && c < g.nFatent && g.fsType == Fat12
    ensures Entry(g, image, c) == NewEntry(Fat12, c)
  {
    EntryInFat(g, c);
    var p := EntryBytes(g, image, c);
    var h := FatHead(Fat12);
    assert p[0] == AreaByte(h, c + c / 2) && p[1] == AreaByte(h, c + c / 2 + 1);
  }

  lemma FreshTable(g: Geo, image: seq<Byte>)
    requires Fits(g, |image|) && FreshFat(g, image)
    ensures IsTable(g, image, NewTable(g.fsType, g.nFatent))
  {
    forall c {:trigger Entry(g, image, c)} | 0 <= c < g.nFatent ensures NewTable(g.fsType, g.nFatent)[c] == Entry(g, image, c) {
      match g.fsType
      case Fat12 => FreshEntry12(g, image, c);
      case Fat16 => FreshEntry16(g, image, c);
      case Fat32 => FreshEntry32(g, image, c);
    }
  }

  /** The chains of a new volume: the root directory of a FAT32 volume, or none. */
  function NewChains(t: FatType): set<Chain> { if t == Fat32 then {[2]} else {} }

  /** A new FAT is well formed and all its other clusters are free. */
  lemma NewTableWellFormed(t: FatType, n: nat)
    requires 3 <= n <= MaxEntries(t)
    ensures WellFormed(NewTable(t, n), NewChains(t))
    ensures FreeCount(NewTable(t, n)) == n - 2 - |NewChains(t)|
  {
    var f := NewTable(t, n);
    TrimFacts(t, 0);
    if t == Fat32 {
      assert IsChain(f, [2]);
      assert InUse(NewChains(t), 2) by { assert [2] in NewChains(t) && 2 in [2]; }
    }
    AllFree(f, 3);
  }

  lemma {:induction false} AllFree(f: Fat, c: nat)
    requires c <= |f| && forall d :: c <= d < |f| ==> f[d] == 0
    ensures FreeFrom(f, c) == |f| - c
    decreases |f| - c
  {
    if c < |f| { AllFree(f, c + 1); }
  }

  /** An FSINFO record: the number of free clusters and the allocation hint. */
  function InfoSector(free: Word32, next: Word32): (s: seq<Byte>)
    ensures |s| == 512
  {
    seq(512, i requires 0 <= i < 512 =>
      if i < 4 then DwordBytes(0x4161_5252)[i]
      else if 484 <= i < 488 then DwordBytes(0x6141_7272)[i - 484]
      else if 488 <= i < 492 then DwordBytes(free)[i - 488]
      else if 492 <= i < 496 then DwordBytes(next)[i - 492]
      else if i == 510 then 0x55
      else if i == 511 then 0xAA
      else 0)
  }

  /** find_volume takes the free count and the allocation hint from it. */
  lemma InfoReadBack(b: Bpb, free: Word32, next: Word32)
    requires b.fsInfo32 == 1
    ensures LoadFsInfo(Fat32, b, InfoSector(free, next)) == FsInfo(free, next, 0)
  {
    var s := InfoSector(free, next);
    WordAt(s, 510, 0xAA55);
    DwordAt(s, 0, 0x4161_5252);
    DwordAt(s, 484, 0x6141_7272);
    DwordAt(s, 488, free);
    DwordAt(s, 492, next);
  }

  /** The partition table of a drive with one partition. */
  function MbrByte(sys: Byte, bVol: nat, szVol: nat, i: nat): Byte {
    var n := (bVol + szVol) / (63 * 255);
    if i == 447 || i == 448 then 1
    else if i == 450 then sys
    else if i == 451 then 254
    else if i == 452 then n / 4 % 0x100 / 64 * 64 + 63
    else if i == 453 then n % 0x100
    else if 454 <= i < 458 then DwordBytes(bVol)[i - 454]
    else if 458 <= i < 462 then DwordBytes(szVol)[i - 458]
    else if i == 510 then 0x55
    else if i == 511 then 0xAA
    else 0
  }

  function MbrSector(sys: Byte, bVol: nat, szVol: nat): (s: seq<Byte>)
    ensures |s| == 512
  {
    seq(512, i requires 0 <= i < 512 => MbrByte(sys, bVol, szVol, i))
  }

  lemma MbrLeadsToVolume(sys: Byte, bVol: Word32, szVol: nat)
    requires sys != 0
    ensures var s := MbrSector(sys, bVol, szVol);
      && CheckFs(s) == 2 && PartitionStart(s, 0) == bVol
      && PartitionStart(s, 1) == 0 && PartitionStart(s, 2) == 0 && PartitionStart(s, 3) == 0
  {
    var s := MbrSector(sys, bVol, szVol);
    WordAt(s, 510, 0xAA55);
    DwordAt(s, 454, bVol);
  }

  /** The boot record of a plan, by its bytes. */
  ghost predicate BootBytes(s: seq<Byte>, p: Plan, bVol: nat, szVol: nat, volId: Word32)
    requires |s| == 512
  {
    && Text(s, 3, "MSDOS5.0") && BootSizes(s, p, szVol) && BootFixed(s, bVol)
    && (if p.fmt == Fat32 then Tail32(s, p.szFat, volId) else Tail16(s, volId))
  }

  ghost predicate BootSizes(s: seq<Byte>, p: Plan, szVol: nat)
    requires |s| == 512
  {
    && Little(s, 11, 2) == 512 && s[13] == p.pau && Little(s, 14, 2) == p.szRsv && s[16] == 1
    && Little(s, 17, 2) == (if p.fmt == Fat32 then 0 else 512) && Little(s, 22, 2) == (if p.fmt == Fat32 then 0 else p.szFat)
    && Little(s, 19, 2) == (if szVol < 0x1_0000 then szVol else 0) && Little(s, 32, 4) == (if szVol < 0x1_0000 then 0 else szVol)
  }

  /** What does not depend on the sizes: jump code, media byte, 63 sectors a track, 255 heads, the volume's offset, the mark. */
  ghost predicate BootFixed(s: seq<Byte>, bVol: nat)
    requires |s| == 512
  {
    && s[0] == 0xEB && s[1] == 0xFE && s[2] == 0x90 && s[21] == 0xF8
    && Little(s, 24, 2) == 63 && Little(s, 26, 2) == 255 && Little(s, 28, 4) == bVol && s[510] == 0x55 && s[511] == 0xAA
  }

  /** The part of a FAT32 boot record. Its FSINFO record is sector 1 of the volume, its backup sector 6, its root directory cluster 2. */
  ghost predicate Tail32(s: seq<Byte>, szFat: nat, volId: Word32)
    requires |s| == 512
  {
    && Little(s, 36, 4) == szFat && Zeros(s, 40, 44) && Little(s, 44, 4) == 2 && Little(s, 48, 2) == 1 && Little(s, 50, 2) == 6
    && Zeros(s, 52, 64) && s[64] == 0x80 && s[65] == 0 && s[66] == 0x29 && Little(s, 67, 4) == volId
    && Text(s, 71, "NO NAME    ") && Text(s, 82, "FAT32   ") && Zeros(s, 90, 510)
  }

  ghost predicate Tail16(s: seq<Byte>, volId: Word32)
    requires |s| == 512
  {
    && s[36] == 0x80 && s[37] == 0 && s[38] == 0x29 && Little(s, 39, 4) == volId
    && Text(s, 43, "NO NAME    ") && Text(s, 54, "FAT     ") && Zeros(s, 62, 510)
  }

  /** An FSINFO record, by its bytes. */
  ghost predicate InfoBytes(s: seq<Byte>, free: nat, next: nat)
    requires |s| == 512
  {
    && Text(s, 0, "RRaA") && Zeros(s, 4, 484) && Text(s, 484, "rrAa")
    && Little(s, 488, 4) == free && Little(s, 492, 4) == next && Zeros(s, 496, 510) && s[510] == 0x55 && s[511] == 0xAA
  }

  /** A partition table with one partition, by its bytes: it starts at head 1 of cylinder 0, and the last cylinder has ten bits. */
  ghost predicate PartitionBytes(s: seq<Byte>, sys: nat, bVol: nat, szVol: nat)
    requires |s| == 512
  {
    var cyl := (bVol + szVol) / (63 * 255) % 0x400;
    && Zeros(s, 0, 447) && s[447] == 1 && s[448] == 1 && s[449] == 0 && s[450] == sys
    && s[451] == 254 && s[452] % 0x40 == 63 && 0x100 * (s[452] as int / 0x40) + s[453] as int == cyl
    && Little(s, 454, 4) == bVol && Little(s, 458, 4) == szVol && Zeros(s, 462, 510) && s[510] == 0x55 && s[511] == 0xAA
  }

  /** The bytes of the boot record. */
  lemma BootMeans(p: Plan, bVol: Word32, szVol: Word32, volId: Word32)
    requires PlanOk(p, szVol)
    ensures BootBytes(BootSector(p, bVol, szVol, volId), p, bVol, szVol, volId)
  {
    NameMeans(p, bVol, szVol, volId);
    SizesMean(p, bVol, szVol, volId);
    FixedMeans(p, bVol, szVol, volId);
    if p.fmt == Fat32 { Tail32Means(p, bVol, szVol, volId); } else { Tail16Means(p, bVol, szVol, volId); }
  }

  lemma NameMeans(p: Plan, bVol: Word32, szVol: Word32, volId: Word32)
    ensures Text(BootSector(p, bVol, szVol, volId), 3, "MSDOS5.0")
  {
    var s := BootSector(p, bVol, szVol, volId);
    assert forall i {:trigger s[i]} :: 0 <= i < 11 ==> s[i] == JumpCode()[i];
  }

  lemma SizesMean(p: Plan, bVol: Word32, szVol: Word32, volId: Word32)
    requires PlanOk(p, szVol)
    ensures BootSizes(BootSector(p, bVol, szVol, volId), p, szVol)
  {
    CommonFields(p, bVol, szVol, volId);
    TotalFields(p, bVol, szVol, volId);
    FatFields(p, bVol, szVol, volId);
    var s := BootSector(p, bVol, szVol, volId);
    LoadsLittle(s, 11);
    LoadsLittle(s, 14);
    LoadsLittle(s, 17);
    LoadsLittle(s, 19);
    LoadsLittle(s, 22);
    LoadsLittle(s, 32);
  }

  lemma FixedMeans(p: Plan, bVol: Word32, szVol: Word32, volId: Word32)
    ensures BootFixed(BootSector(p, bVol, szVol, volId), bVol)
  {
    var s := BootSector(p, bVol, szVol, volId);
    WordLittle(s, 24, 63);
    WordLittle(s, 26, 255);
    DwordLittle(s, 28, bVol);
  }

  lemma Tail32Means(p: Plan, bVol: nat, szVol: nat, volId: Word32)
    requires p.fmt == Fat32 && p.szFat < 0x1_0000_0000
    ensures Tail32(BootSector(p, bVol, szVol, volId), p.szFat, volId)
  {
    var s := BootSector(p, bVol, szVol, volId);
    DwordLittle(s, 36, p.szFat);
    DwordLittle(s, 44, 2);
    WordLittle(s, 48, 1);
    WordLittle(s, 50, 6);
    DwordLittle(s, 67, volId);
    Label32Means(p, bVol, szVol, volId);
  }

  lemma Label32Means(p: Plan, bVol: nat, szVol: nat, volId: Word32)
    requires p.fmt == Fat32
    ensures var s := BootSector(p, bVol, szVol, volId); Text(s, 71, "NO NAME    ") && Text(s, 82, "FAT32   ")
  {
    var s := BootSector(p, bVol, szVol, volId);
    assert forall i {:trigger s[i]} :: 71 <= i < 90 ==> s[i] == LabelFat32()[i - 71];
  }

  lemma Tail16Means(p: Plan, bVol: nat, szVol: nat, volId: Word32)
    requires p.fmt != Fat32
    ensures Tail16(BootSector(p, bVol, szVol, volId), volId)
  {
    DwordLittle(BootSector(p, bVol, szVol, volId), 39, volId);
  }

  lemma InfoMeans(free: Word32, next: Word32)
    ensures InfoBytes(InfoSector(free, next), free, next)
  {
    var s := InfoSector(free, next);
    assert DwordBytes(0x4161_5252) == [0x52, 0x52, 0x61, 0x41] && DwordBytes(0x6141_7272) == [0x72, 0x72, 0x41, 0x61];
    DwordLittle(s, 488, free);
    DwordLittle(s, 492, next);
  }

  lemma PartitionMeans(sys: Byte, bVol: Word32, szVol: Word32)
    ensures PartitionBytes(MbrSector(sys, bVol, szVol), sys, bVol, szVol)
  {
    var s := MbrSector(sys, bVol, szVol);
    EndCylinder((bVol + szVol) / (63 * 255));
    DwordLittle(s, 454, bVol);
    DwordLittle(s, 458, szVol);
  }

  lemma EndCylinder(n: nat)
    ensures var b := n / 4 % 0x100 / 64 * 64 + 63; b % 0x40 == 63 && 0x100 * (b / 0x40) + n % 0x100 == n % 0x400
  {
    var q, m := n / 0x400, n % 0x400;
    assert n == 0x400 * q + m;
    assert n / 4 == 0x100 * q + m / 4;
    assert n / 4 % 0x100 == m / 4;
    assert n % 0x100 == m % 0x100;
  }

  /** First sector of the root directory. */
  function RootStart(p: Plan, bVol: nat): nat { bVol + p.szRsv + p.szFat }

  function RootSectors(p: Plan): nat { if p.fmt == Fat32 then p.pau else p.szDir }

  /** The image holds the volume of a plan, empty. */
  ghost predicate Formatted(image: seq<Byte>, p: Plan, bVol: Word32, szVol: Word32, volId: Word32)
    requires PlanOk(p, szVol) && 512 * (bVol + szVol) <= |image| && bVol + szVol <= 0x1_0000_0000
  {
    PlanIsSound(p, bVol, szVol, |image|);
    && SectorOf(image, bVol) == BootSector(p, bVol, szVol, volId)
    && FreshFat(PlannedGeo(p, bVol), image)
    && (forall a {:trigger image[a]} :: 512 * RootStart(p, bVol) <= a < 512 * (RootStart(p, bVol) + RootSectors(p)) ==> image[a] == 0)
    && (p.fmt == Fat32 ==> InfoRecords(image, p, bVol) && SectorOf(image, bVol + 6) == BootSector(p, bVol, szVol, volId))
  }

  /** The FSINFO record of a FAT32 volume and its backup. */
  ghost predicate InfoRecords(image: seq<Byte>, p: Plan, bVol: Word32)
    requires p.nClst <= MAX_FAT32 && 512 * (bVol + 8) <= |image| && 1 <= p.nClst
  {
    SectorOf(image, bVol + 1) == InfoSector(p.nClst - 1, 2) && SectorOf(image, bVol + 7) == InfoSector(p.nClst - 1, 2)
  }

  /** The bytes a FAT begins with; all others are zero. */
  function FatStart(t: FatType, k: nat): Byte {
    if k == 0 then 0xF8
    else if k < (if t == Fat12 then 3 else if t == Fat16 then 4 else 11) then 0xFF
    else if k == 11 && t == Fat32 then 0x0F
    else 0
  }

  /** The system areas of a formatted drive, by their bytes; the partition table is there if the volume is not at the start. */
  ghost predicate DriveBytes(image: seq<Byte>, p: Plan, bVol: Word32, szVol: Word32, volId: Word32)
    requires PlanOk(p, szVol) && 512 * (bVol + szVol) <= |image|
  {
    forall t {:trigger OpenDrive(t)} :: OpenDrive(t) ==>
      && BootBytes(SectorOf(image, bVol), p, bVol, szVol, volId)
      && (p.fmt == Fat32 ==> BackupBytes(image, p, bVol, szVol, volId))
      && FatStarts(image, p, bVol, szVol)
      && (bVol != 0 ==> PartitionBytes(SectorOf(image, 0), PartitionType(p.fmt, szVol), bVol, szVol))
  }

  ghost predicate OpenDrive(t: int) { true }

  ghost predicate FatStarts(image: seq<Byte>, p: Plan, bVol: Word32, szVol: Word32)
    requires PlanOk(p, szVol) && 512 * (bVol + szVol) <= |image|
  {
    forall k: nat {:trigger FatStart(p.fmt, k)} :: k < 512 * p.szFat ==> image[512 * (bVol + p.szRsv) + k] == FatStart(p.fmt, k)
  }

  /** The FSINFO record, and the backups of it and of the boot record. */
  ghost predicate BackupBytes(image: seq<Byte>, p: Plan, bVol: Word32, szVol: Word32, volId: Word32)
    requires 512 * (bVol + 8) <= |image| && p.nClst >= 1
  {
    && BootBytes(SectorOf(image, bVol + 6), p, bVol, szVol, volId)
    && InfoBytes(SectorOf(image, bVol + 1), p.nClst - 1, 2) && InfoBytes(SectorOf(image, bVol + 7), p.nClst - 1, 2)
  }

  /** The partition types of FAT volumes. */
  function PartitionType(t: FatType, szVol: nat): nat {
    match t
    case Fat32 => 12
    case Fat16 => if szVol < 65536 then 4 else 6
    case Fat12 => if szVol < 65536 then 1 else 6
  }

  lemma DriveMeans(image: seq<Byte>, p: Plan, bVol: Word32, szVol: Word32, volId: Word32)
    requires PlanOk(p, szVol) && 512 * (bVol + szVol) <= |image| && bVol + szVol <= 0x1_0000_0000
    requires Formatted(image, p, bVol, szVol, volId)
    requires bVol != 0 ==> SectorOf(image, 0) == MbrSector(SystemId(p, szVol), bVol, szVol)
    ensures DriveBytes(image, p, bVol, szVol, volId)
  {
    BootIn(image, bVol, p, bVol, szVol, volId);
    if p.fmt == Fat32 { BackupMeans(image, p, bVol, szVol, volId); }
    var mbr := MbrSector(SystemId(p, szVol), bVol, szVol);
    assert PartitionBytes(mbr, PartitionType(p.fmt, szVol), bVol, szVol) by { PartitionMeans(SystemId(p, szVol), bVol, szVol); }
    PlanIsSound(p, bVol, szVol, |image|);
    FatStartMeans(image, p, bVol, szVol);
  }

  lemma BackupMeans(image: seq<Byte>, p: Plan, bVol: Word32, szVol: Word32, volId: Word32)
    requires PlanOk(p, szVol) && 512 * (bVol + 8) <= |image| && InfoRecords(image, p, bVol)
    requires SectorOf(image, bVol + 6) == BootSector(p, bVol, szVol, volId)
    ensures BackupBytes(image, p, bVol, szVol, volId)
  {
    BootIn(image, bVol + 6, p, bVol, szVol, volId);
    InfoIn(image, bVol + 1, p.nClst - 1);
    InfoIn(image, bVol + 7, p.nClst - 1);
  }

  lemma BootIn(image: seq<Byte>, k: nat, p: Plan, bVol: Word32, szVol: Word32, volId: Word32)
    requires 512 * k + 512 <= |image| && PlanOk(p, szVol) && SectorOf(image, k) == BootSector(p, bVol, szVol, volId)
    ensures BootBytes(SectorOf(image, k), p, bVol, szVol, volId)
  {
    BootMeans(p, bVol, szVol, volId);
  }

  lemma InfoIn(image: seq<Byte>, k: nat, free: Word32)
    requires 512 * k + 512 <= |image| && SectorOf(image, k) == InfoSector(free, 2)
    ensures InfoBytes(SectorOf(image, k), free, 2)
  {
    InfoMeans(free, 2);
  }

  lemma FatStartMeans(image: seq<Byte>, p: Plan, bVol: Word32, szVol: Word32)
    requires PlanOk(p, szVol) && 512 * (bVol + szVol) <= |image|
    requires Fits(PlannedGeo(p, bVol), |image|) && FreshFat(PlannedGeo(p, bVol), image)
    ensures FatStarts(image, p, bVol, szVol)
  {
    forall k: nat | k < 512 * p.szFat ensures image[512 * (bVol + p.szRsv) + k] == FatStart(p.fmt, k) {
      assert Fat1Byte(PlannedGeo(p, bVol), 512 * (bVol + p.szRsv) + k);
    }
  }

  /** Write one prepared sector. */
  method StoreSector(disk: array<Byte>, buf: array<Byte>, k: nat, s: seq<Byte>)
    requires disk != buf && 512 <= buf.Length && |s| == 512 && 512 * k + 512 <= disk.Length
    modifies disk, buf
    ensures forall a {:trigger disk[a]} :: 0 <= a < disk.Length ==>
      disk[a] == if 512 * k <= a < 512 * k + 512 then s[a - 512 * k] else old(disk[a])
    ensures SectorOf(disk[..], k) == s
  {
    forall i | 0 <= i < 512 { buf[i] := s[i]; }
    DiskWrite(disk, buf, 0, k, 1);
  }

  /** The boot record and, on a FAT32 volume, its backup and the FSINFO records. */
  method WriteRecords(disk: array<Byte>, buf: array<Byte>, p: Plan, bVol: Word32, szVol: Word32, volId: Word32)
    requires disk != buf && 512 <= buf.Length && PlanOk(p, szVol) && 512 * (bVol + szVol) <= disk.Length
    modifies disk, buf
    ensures SectorOf(disk[..], bVol) == BootSector(p, bVol, szVol, volId)
    ensures p.fmt == Fat32 ==> InfoRecords(disk[..], p, bVol) && SectorOf(disk[..], bVol + 6) == BootSector(p, bVol, szVol, volId)
  {
    StoreSector(disk, buf, bVol, BootSector(p, bVol, szVol, volId));
    if p.fmt == Fat32 {
      WriteBackups(disk, buf, bVol, BootSector(p, bVol, szVol, volId), InfoSector(p.nClst - 1, 2));
    }
  }

  /** The backup of the boot record, and the FSINFO record with its backup. */
  method WriteBackups(disk: array<Byte>, buf: array<Byte>, b: nat, boot: seq<Byte>, info: seq<Byte>)
    requires disk != buf && 512 <= buf.Length && |boot| == 512 && |info| == 512 && 512 * (b + 8) <= disk.Length
    modifies disk, buf
    ensures SectorOf(disk[..], b) == old(SectorOf(disk[..], b)) && SectorOf(disk[..], b + 6) == boot
    ensures SectorOf(disk[..], b + 1) == info && SectorOf(disk[..], b + 7) == info
  {
    ghost var was := disk[..];
    StoreSector(disk, buf, b + 6, boot);
    ghost var one := disk[..];
    OtherSector(was, one, b + 6, b);
    StoreSector(disk, buf, b + 7, info);
    ghost var two := disk[..];
    OtherSector(one, two, b + 7, b);
    OtherSector(one, two, b + 7, b + 6);
    StoreSector(disk, buf, b + 1, info);
    OtherSector(two, disk[..], b + 1, b);
    OtherSector(two, disk[..], b + 1, b + 6);
    OtherSector(two, disk[..], b + 1, b + 7);
  }

  /** Writing sector k leaves sector j as it was. */
  lemma OtherSector(image: seq<Byte>, image': seq<Byte>, k: nat, j: nat)
    requires |image| == |image'| && 512 * j + 512 <= |image| && j != k
    requires forall a {:trigger image'[a]} :: 0 <= a < |image| && !(512 * k <= a < 512 * k + 512) ==> image'[a] == image[a]
    ensures SectorOf(image', j) == SectorOf(image, j)
  {
  }

  /** The FAT and the root directory. */
  method WriteAreas(disk: array<Byte>, buf: array<Byte>, p: Plan, bVol: Word32, szVol: Word32)
    requires disk != buf && 512 <= buf.Length && PlanOk(p, szVol) && 512 * (bVol + szVol) <= disk.Length
    modifies disk, buf
    ensures forall a {:trigger disk[a]} :: 0 <= a < 512 * (bVol + p.szRsv) ==> disk[a] == old(disk[a])
    ensures forall a {:trigger disk[a]} :: 512 * (bVol + p.szRsv) <= a < 512 * RootStart(p, bVol) ==>
      disk[a] == AreaByte(FatHead(p.fmt), a - 512 * (bVol + p.szRsv))
    ensures forall a {:trigger disk[a]} :: 512 * RootStart(p, bVol) <= a < 512 * (RootStart(p, bVol) + RootSectors(p)) ==> disk[a] == 0
  {
    var head := FatHead(p.fmt);
    forall i | 0 <= i < Whole(buf.Length) { buf[i] := AreaByte(head, i); }
    FillArea(disk, buf, bVol + p.szRsv, p.szFat, head);
    FillArea(disk, buf, RootStart(p, bVol), RootSectors(p), []);
  }

  /** Everything f_mkfs writes inside the volume. */
  method WriteVolume(disk: array<Byte>, buf: array<Byte>, p: Plan, bVol: Word32, szVol: Word32, volId: Word32)
    requires disk != buf && 512 <= buf.Length && PlanOk(p, szVol)
    requires 512 * (bVol + szVol) <= disk.Length && bVol + szVol <= 0x1_0000_0000
    modifies disk, buf
    ensures Formatted(disk[..], p, bVol, szVol, volId)
  {
    WriteRecords(disk, buf, p, bVol, szVol, volId);
    ghost var image := disk[..];
    WriteAreas(disk, buf, p, bVol, szVol);
    PlanIsSound(p, bVol, szVol, disk.Length);
    forall j: nat | j < bVol + p.szRsv ensures SectorOf(disk[..], j) == SectorOf(image, j) { SameSector(image, disk[..], bVol + p.szRsv, j); }
  }

  lemma SameSector(image: seq<Byte>, image': seq<Byte>, n: nat, j: nat)
    requires |image| == |image'| && 512 * n <= |image| && j < n
    requires forall a {:trigger image'[a]} :: 0 <= a < 512 * n ==> image'[a] == image[a]
    ensures SectorOf(image', j) == SectorOf(image, j)
  {
  }

  /** How f_mkfs makes the volume findable: at the start of the drive or through a partition table. */
  ghost predicate Reachable(image: seq<Byte>, bVol: nat) {
    |image| >= 512 && (bVol == 0 || exists sys: Byte, n: nat :: sys != 0 && SectorOf(image, 0) == MbrSector(sys, bVol, n))
  }

  lemma BootHasNoPartitions(p: Plan, bVol: nat, szVol: nat, volId: Word32, i: nat)
    requires i < 4
    ensures PartitionStart(BootSector(p, bVol, szVol, volId), i) == 0
  {
  }

  lemma FoundOnWholeDrive(image: seq<Byte>, p: Plan, szVol: Word32, volId: Word32)
    requires |image| >= 512 && SectorOf(image, 0) == BootSector(p, 0, szVol, volId)
    ensures TableOnDisk(image) && IsVolumeStart(image, 0) && !NoVolume(image)
    ensures forall b: nat :: IsVolumeStart(image, b) ==> b == 0
  {
    BootIsRecognized(p, 0, szVol, volId);
    forall i | 0 <= i < 4 ensures PartitionStart(SectorOf(image, 0), i) == 0 { BootHasNoPartitions(p, 0, szVol, volId, i); }
  }

  lemma FoundInPartition(image: seq<Byte>, bVol: Word32, sys: Byte, n: nat)
    requires 512 * bVol + 512 <= |image| && bVol != 0 && sys != 0
    requires SectorOf(image, 0) == MbrSector(sys, bVol, n) && CheckFs(SectorOf(image, bVol)) == 0
    ensures TableOnDisk(image) && IsVolumeStart(image, bVol) && !NoVolume(image)
    ensures forall b: nat :: IsVolumeStart(image, b) ==> b == bVol
  {
    MbrLeadsToVolume(sys, bVol, n);
    var mbr := SectorOf(image, 0);
    assert TableOnDisk(image);
    assert HoldsVolume(image, 0);
  }

  /** find_volume finds a formatted volume, and no other. */
  lemma FormattedIsFound(image: seq<Byte>, p: Plan, bVol: Word32, szVol: Word32, volId: Word32)
    requires 512 * bVol + 512 <= |image| && SectorOf(image, bVol) == BootSector(p, bVol, szVol, volId) && Reachable(image, bVol)
    ensures TableOnDisk(image) && IsVolumeStart(image, bVol) && !NoVolume(image)
    ensures forall b: nat :: IsVolumeStart(image, b) ==> b == bVol
  {
    if bVol == 0 {
      FoundOnWholeDrive(image, p, szVol, volId);
    } else {
      BootIsRecognized(p, bVol, szVol, volId);
      var sys: Byte, n: nat :| sys != 0 && SectorOf(image, 0) == MbrSector(sys, bVol, n);
      FoundInPartition(image, bVol, sys, n);
    }
  }

  /** A formatted drive mounts with the planned layout and a well-formed FAT. */
  lemma FormatThenMount(image: seq<Byte>, p: Plan, bVol: Word32, szVol: Word32, volId: Word32)
    requires PlanOk(p, szVol) && 512 * (bVol + szVol) <= |image| && bVol + szVol <= 0x1_0000_0000
    requires Formatted(image, p, bVol, szVol, volId)
    ensures var g := PlannedGeo(p, bVol);
      && Analyze(ReadBpb(SectorOf(image, bVol)), bVol) == Accepted(g) && Sound(g, |image|)
      && IsTable(g, image, NewTable(g.fsType, g.nFatent)) && WellFormed(NewTable(g.fsType, g.nFatent), NewChains(g.fsType))
  {
    MountAgrees(p, bVol, szVol, volId);
    PlanIsSound(p, bVol, szVol, |image|);
    FreshTable(PlannedGeo(p, bVol), image);
    NewTableWellFormed(p.fmt, p.nClst + 2);
  }

  /** All clusters but those of a FAT32 root directory are free, and the FSINFO record of a FAT32 volume says so. */
  lemma FormatCountsFree(p: Plan, szVol: Word32, b: Bpb)
    requires PlanOk(p, szVol) && b.fsInfo32 == 1
    ensures FreeCount(NewTable(p.fmt, p.nClst + 2)) == p.nClst - |NewChains(p.fmt)|
    ensures p.fmt == Fat32 ==> LoadFsInfo(Fat32, b, InfoSector(p.nClst - 1, 2)) == FsInfo(FreeCount(NewTable(p.fmt, p.nClst + 2)), 2, 0)
  {
    NewTableWellFormed(p.fmt, p.nClst + 2);
    InfoReadBack(b, p.nClst - 1, 2);
  }

  /** The system identifier for the partition table. */
  function SystemId(p: Plan, szVol: nat): (id: Byte)
    ensures id != 0
  {
    if p.fmt == Fat32 then 0x0C else if szVol >= 0x1_0000 then 0x06 else if p.fmt == Fat16 then 0x04 else 0x01
  }

  /** The type f_mkfs begins with. */
  function FirstType(opt: Options): FatType { if opt.fat32 && !opt.fat then Fat32 else Fat16 }

  /** f_mkfs on a RAM disk, whose erase block is one sector. */
  method FMkfs(disk: array<Byte>, work: array<Byte>, opt: Options, bytes: nat, volId: Word32)
    returns (res: FResult, p: Plan, bVol: Word32, szVol: Word32)
    requires disk != work && disk.Length % 512 == 0 && disk.Length < 512 * 0x1_0000_0000
    modifies disk, work
    ensures res == FrOk ==>
      && PlanOk(p, szVol) && ShortestFat(p, szVol) && 512 * (bVol + szVol) == disk.Length
      && Formatted(disk[..], p, bVol, szVol, volId) && Reachable(disk[..], bVol) && DriveBytes(disk[..], p, bVol, szVol, volId)
    ensures res == FrOk ==>
      && (if bytes == 0 then (p.fmt, p.pau) == AutoChoice(szVol, FirstType(opt), opt) else p.pau == bytes / 512) && (if p.fmt == Fat32 then opt.fat32 else opt.fat)
      && bVol == if opt.sfd then 0 else 63
    ensures bytes == 0 && work.Length >= 512 && (opt.fat || opt.fat32) ==>
      var b := if opt.sfd then 0 else 63;
      res == FrOk <==> b + 128 <= disk.Length / 512 && AutoFits(disk.Length / 512 - b, FirstType(opt), opt)
    ensures 512 <= bytes && bytes / 512 <= 128 && BitAnd(bytes, bytes - 1) == 0 && work.Length >= 512 && (opt.fat || opt.fat32) ==>
      var b := if opt.sfd then 0 else 63;
      res == FrOk <==> b + 128 <= disk.Length / 512 && FixedFits(disk.Length / 512 - b, bytes / 512, FirstType(opt), opt)
    ensures (bytes != 0 && (bytes < 512 || bytes / 512 > 128 || BitAnd(bytes, bytes - 1) != 0)) || work.Length < 512 || !(opt.fat || opt.fat32) ==> res != FrOk
  {
    p, bVol, szVol := Plan(Fat12, 1, 0, 0, 0, 0), 0, 0;
    if (bytes != 0 && bytes < 512) || bytes > 0x100_0000 || (bytes != 0 && BitAnd(bytes, bytes - 1) != 0) { return FrInvalidParameter, p, 0, 0; }
    var au := bytes / 512;
    if work.Length / 512 == 0 { return FrNotEnoughCore, p, 0, 0; }
    szVol := disk.Length / 512;
    bVol := if opt.sfd then 0 else 63;
    if szVol < bVol { return FrMkfsAborted, p, 0, 0; }
    szVol := szVol - bVol;
    if szVol < 128 { return FrMkfsAborted, p, 0, 0; }
    if au > 128 { return FrInvalidParameter, p, 0, 0; }
    if !opt.fat32 && !opt.fat { return FrInvalidParameter, p, 0, 0; }
    UnitIsPower(bytes);
    res, p := PlanVolume(szVol, au, FirstType(opt), opt);
    if res != FrOk { return; }
    WriteDrive(disk, work, p, bVol, szVol, volId, opt.sfd);
  }

  /** The volume and, unless it is at the start of the drive, the partition table. */
  method WriteDrive(disk: array<Byte>, work: array<Byte>, p: Plan, bVol: Word32, szVol: Word32, volId: Word32, sfd: bool)
    requires sfd <==> bVol == 0
    requires disk != work && 512 <= work.Length && PlanOk(p, szVol)
    requires 512 * (bVol + szVol) <= disk.Length && bVol + szVol <= 0x1_0000_0000
    modifies disk, work
    ensures Formatted(disk[..], p, bVol, szVol, volId) && Reachable(disk[..], bVol) && DriveBytes(disk[..], p, bVol, szVol, volId)
  {
    WriteVolume(disk, work, p, bVol, szVol, volId);
    if !sfd {
      ghost var image := disk[..];
      StoreSector(disk, work, 0, MbrSector(SystemId(p, szVol), bVol, szVol));
      MbrKeepsVolume(image, disk[..], p, bVol, szVol, volId);
    }
    DriveMeans(disk[..], p, bVol, szVol, volId);
  }

  /** The partition table lies in front of the volume. */
  lemma MbrKeepsVolume(image: seq<Byte>, image': seq<Byte>, p: Plan, bVol: Word32, szVol: Word32, volId: Word32)
    requires PlanOk(p, szVol) && 512 * (bVol + szVol) <= |image| == |image'| && bVol + szVol <= 0x1_0000_0000 && bVol > 0
    requires Formatted(image, p, bVol, szVol, volId)
    requires forall a {:trigger image'[a]} :: 512 <= a < |image| ==> image'[a] == image[a]
    ensures Formatted(image', p, bVol, szVol, volId)
  {
    PlanIsSound(p, bVol, szVol, |image|);
    forall j: nat | 1 <= j < bVol + p.szRsv ensures SectorOf(image', j) == SectorOf(image, j) { OtherSector(image, image', 0, j); }
  }

  /** A power of two of at least 512 bytes is a power of two in sectors. */
  lemma UnitIsPower(bytes: nat)
    requires bytes == 0 || (bytes >= 512 && BitAnd(bytes, bytes - 1) == 0)
    ensures bytes / 512 == 0 || PowerOfTwo(bytes / 512)
  {
    if bytes != 0 {
      PowerOfTwoTest(bytes);
      var b8 := bytes / 8;
      Shrunk8(bytes);
      var b64 := b8 / 8;
      Shrunk8(b8);
      assert b64 >= 8 && b64 / 8 == bytes / 512;
      Shrunk8(b64);
    }
  }

  lemma Shrunk8(b: nat)
    requires PowerOfTwo(b) && b >= 8
    ensures PowerOfTwo(b / 8)
  {
    assert PowerOfTwo(b / 2);
    assert PowerOfTwo(b / 2 / 2);
    assert PowerOfTwo(b / 2 / 2 / 2);
    assert b / 2 / 2 / 2 == b / 8;
  }
}
