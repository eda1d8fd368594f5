/** The RAM disk: sector transfers between a caller's buffer and the raw byte array. */
module DiskIo {
  import opened Machine

  /** disk_read: copy `count` sectors from `sector` on into buff at offset ofs. */
  method DiskRead(raw: array<Byte>, buff: array<Byte>, ofs: nat, sector: nat, count: nat)
    requires raw != buff
    requires 512 * (sector + count) <= raw.Length && ofs + 512 * count <= buff.Length
    modifies buff
    ensures forall k {:trigger buff[k]} :: 0 <= k < buff.Length ==>
      buff[k] == if ofs <= k < ofs + 512 * count then raw[512 * sector + (k - ofs)] else old(buff[k])
  {
    var start, n := sector * 512, count * 512;
    var j := 0;
    while j < n
      invariant 0 <= j <= n
      invariant forall k {:trigger buff[k]} :: 0 <= k < buff.Length ==>
        buff[k] == if ofs <= k < ofs + j then raw[start + (k - ofs)] else old(buff[k])
    {
      buff[ofs + j] := raw[start + j];
      j := j + 1;
    }
  }

  /** disk_write: copy `count` sectors of buff from offset ofs on to the disk at `sector`. */
  method DiskWrite(raw: array<Byte>, buff: array<Byte>, ofs: nat, sector: nat, count: nat)
    requires raw != buff
    requires 512 * (sector + count) <= raw.Length && ofs + 512 * count <= buff.Length
    modifies raw
    ensures forall a {:trigger raw[a]} :: 0 <= a < raw.Length ==>
      raw[a] == if 512 * sector <= a < 512 * (sector + count) then buff[ofs + (a - 512 * sector)] else old(raw[a])
  {
    var start, n := sector * 512, count * 512;
    var j := 0;
    while j < n
      invariant 0 <= j <= n
      invariant forall a {:trigger raw[a]} :: 0 <= a < raw.Length ==>
        raw[a] == if start <= a < start + j then buff[ofs + (a - start)] else old(raw[a])
    {
      raw[start + j] := buff[ofs + j];
      j := j + 1;
    }
  }
}
