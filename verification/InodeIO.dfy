/** Reading and writing file data. */
module InodeIO {
  /*
   Reading and writing file data, filesys/inode.c. A file is an extent of consecutive sectors; the
   loops of inode_read_at() and inode_write_at() cut a transfer into chunks that stay within one
   sector and go through a bounce buffer unless they cover it. They are proved to read and replace a
   slice of the device seen as one array of bytes.
   */

  import opened Common

  /** The number of sectors of a file of the given length, bytes_to_sectors(). */
  function Sectors(length: nat): nat {
    (length + 511) / 512
  }

  /** As few sectors as hold the bytes. */
  lemma SectorsFew(length: nat)
    ensures length <= 512 * Sectors(length) && forall n: nat :: length <= 512 * n ==> Sectors(length) <= n
  {
  }

  type Disk = seq<seq<Byte>>

  function ZeroSector(): seq<Byte> {
    seq(512, _ => 0)
  }

  ghost predicate Formatted(disk: Disk) {
    forall i :: 0 <= i < |disk| ==> |disk[i]| == 512
  }

  /** The device as one array of bytes. */
  ghost function Flat(disk: Disk): seq<Byte> {
    if disk == [] then [] else disk[0] + Flat(disk[1..])
  }

  lemma {:induction false} FlatConcat(a: Disk, b: Disk)
    ensures Flat(a + b) == Flat(a) + Flat(b)
  {
    if a == [] {
      assert a + b == b;
    } else {
      assert (a + b)[1..] == a[1..] + b;
      FlatConcat(a[1..], b);
    }
  }

  lemma {:induction false} FlatLength(disk: Disk)
    requires Formatted(disk)
    ensures |Flat(disk)| == 512 * |disk|
  {
    if disk != [] {
      FlatLength(disk[1..]);
    }
  }

  /** Sector s is the slice of the array between the sectors before and after it. */
  lemma FlatSector(disk: Disk, s: nat)
    requires Formatted(disk) && s < |disk|
    ensures |Flat(disk)| == 512 * |disk| && Flat(disk)[512 * s..512 * s + 512] == disk[s]
    ensures Flat(disk)[..512 * s] == Flat(disk[..s]) && Flat(disk)[512 * s + 512..] == Flat(disk[s + 1..])
  {
    var pre, mid, post := disk[..s], [disk[s]], disk[s + 1..];
    assert disk == pre + mid + post;
    FlatConcat(pre + mid, post);
    FlatConcat(pre, mid);
    assert Flat(mid) == disk[s] + Flat(mid[1..]);
    FlatLength(disk);
    FlatLength(pre);
  }

  /** a with the bytes from p on replaced by b. */
  ghost function Replaced(a: seq<Byte>, p: nat, b: seq<Byte>): seq<Byte>
    requires p + |b| <= |a|
  {
    a[..p] + b + a[p + |b|..]
  }

  /** b stands in a at position p. */
  ghost predicate IsSlice(a: seq<Byte>, p: nat, b: seq<Byte>) {
    b != [] ==> p + |b| <= |a| && b == a[p..p + |b|]
  }

  /** a2 is a with b written at position p, if b is not empty. */
  ghost predicate IsReplaced(a: seq<Byte>, p: nat, b: seq<Byte>, a2: seq<Byte>) {
    if b == [] then a2 == a else p + |b| <= |a| && a2 == Replaced(a, p, b)
  }

  /** Writing a sector that differs from the old one in a slice replaces that slice of the array. */
  lemma FlatUpdate(disk: Disk, s: nat, ofs: nat, chunk: seq<Byte>)
    requires Formatted(disk) && s < |disk| && ofs + |chunk| <= 512
    ensures var disk' := disk[s := Replaced(disk[s], ofs, chunk)];
      && Formatted(disk') && |Flat(disk)| == 512 * |disk|
      && Flat(disk') == Replaced(Flat(disk), 512 * s + ofs, chunk)
  {
    var sector := Replaced(disk[s], ofs, chunk);
    var disk' := disk[s := sector];
    FlatSector(disk, s);
    FlatSector(disk', s);
    assert disk'[..s] == disk[..s] && disk'[s + 1..] == disk[s + 1..];
    var f, f' := Flat(disk), Flat(disk');
    hide Flat;
    assert f' == f'[..512 * s] + f'[512 * s..512 * s + 512] + f'[512 * s + 512..];
    assert f' == f[..512 * s] + sector + f[512 * s + 512..];
    assert f == f[..512 * s] + disk[s] + f[512 * s + 512..];
    SliceUpdate(f[..512 * s], disk[s], f[512 * s + 512..], ofs, chunk);
  }

  lemma SliceUpdate(a: seq<Byte>, b: seq<Byte>, c: seq<Byte>, ofs: nat, chunk: seq<Byte>)
    requires ofs + |chunk| <= |b|
    ensures a + Replaced(b, ofs, chunk) + c == Replaced(a + b + c, |a| + ofs, chunk)
  {
  }

  lemma ReplacedTwice(a: seq<Byte>, p: nat, b: seq<Byte>, c: seq<Byte>)
    requires p + |b| + |c| <= |a|
    ensures Replaced(Replaced(a, p, b), p + |b|, c) == Replaced(a, p, b + c)
  {
  }

  /** How many bytes a transfer of "size" bytes at "offset" moves in a file of the given length. */
  function Count(size: int, offset: nat, length: nat): nat {
    if size <= 0 || offset >= length then 0
    else if size < length - offset then size else length - offset
  }

  /** The extent of a file lies within the device. */
  ghost predicate Fits(disk: Disk, start: nat, length: nat) {
    Formatted(disk) && start + Sectors(length) <= |disk|
  }

  /** byte_to_sector() on a byte of the file, and its offset there, locate the byte in the array. */
  lemma Located(disk: Disk, start: nat, length: nat, pos: nat)
    requires Fits(disk, start, length) && pos < length
    ensures start + pos / 512 < |disk| && 512 * (start + pos / 512) + pos % 512 == 512 * start + pos
    ensures 512 * start + length <= 512 * |disk|
  {
  }

  class Device {
    var sectors: Disk

    /** inode_read_at(). "bounceOk" says whether the allocation of the bounce buffer succeeds. */
    method ReadAt(start: nat, length: nat, size0: int, offset0: nat, bounceOk: bool) returns (bytes: seq<Byte>)
      requires Fits(sectors, start, length)
      ensures |bytes| <= Count(size0, offset0, length)
      ensures bounceOk ==> |bytes| == Count(size0, offset0, length)
      ensures IsSlice(Flat(sectors), 512 * start + offset0, bytes)
    {
      hide Flat;
      bytes := [];
      var size, offset := size0, offset0;
      ghost var f := Flat(sectors);
      ghost var p := 512 * start + offset0;
      FlatLength(sectors);
      while size > 0
        invariant |f| == 512 * |sectors| && offset == offset0 + |bytes| && size == size0 - |bytes|
        invariant |bytes| <= Count(size0, offset0, length)
        invariant IsSlice(f, p, bytes)
        decreases size
      {
        var sectorIdx := start + offset / 512;
        var sectorOfs := offset % 512;
        var inodeLeft := length - offset;
        var sectorLeft := 512 - sectorOfs;
        var minLeft := Min(inodeLeft, sectorLeft);
        var chunkSize := Min(size, minLeft);
        if chunkSize <= 0 {
          break;
        }
        Located(sectors, start, length, offset);
        FlatSector(sectors, sectorIdx);
        var chunk;
        if sectorOfs == 0 && chunkSize == 512 {
          chunk := sectors[sectorIdx];
        } else {
          if !bounceOk {
            break;
          }
          chunk := sectors[sectorIdx][sectorOfs..sectorOfs + chunkSize];
        }
        ReadChunk(f, 512 * sectorIdx, sectorOfs, chunkSize, p, bytes, chunk);
        bytes := bytes + chunk;
        size := size - chunkSize;
        offset := offset + chunkSize;
      }
    }
  
    /** inode_write_at(): the branch that is never taken, for a whole sector through the bounce
        buffer, is kept. */
    method WriteAt(start: nat, length: nat, denyWriteCnt: nat, buffer: seq<Byte>, size0: int, offset0: nat, bounceOk: bool)
      returns (written: nat)
      requires Fits(sectors, start, length) && size0 <= |buffer|
      modifies this
      ensures Formatted(sectors) && |sectors| == |old(sectors)|
      ensures written <= Count(size0, offset0, length)
      ensures denyWriteCnt == 0 && bounceOk ==> written == Count(size0, offset0, length)
      ensures denyWriteCnt != 0 ==> written == 0
      ensures written <= |buffer|
      ensures IsReplaced(old(Flat(sectors)), 512 * start + offset0, buffer[..written], Flat(sectors))
    {
      hide Flat, IsReplaced;
      written := 0;
      var size, offset := size0, offset0;
      ghost var f := Flat(sectors);
      ghost var p := 512 * start + offset0;
      WriteNothing(f, p, buffer);
      if denyWriteCnt != 0 {
        return;
      }
      while size > 0
        invariant Fits(sectors, start, length) && |sectors| == |old(sectors)|
        invariant offset == offset0 + written && size == size0 - written
        invariant written <= Count(size0, offset0, length) && written <= |buffer|
        invariant IsReplaced(f, p, buffer[..written], Flat(sectors))
        decreases size
      {
        var sectorIdx := start + offset / 512;
        var sectorOfs := offset % 512;
        var inodeLeft := length - offset;
        var sectorLeft := 512 - sectorOfs;
        var minLeft := Min(inodeLeft, sectorLeft);
        var chunkSize := Min(size, minLeft);
        if chunkSize <= 0 {
          break;
        }
        Located(sectors, start, length, offset);
        ghost var before := sectors;
        var chunk := buffer[written..written + chunkSize];
        if sectorOfs == 0 && chunkSize == 512 {
          assert Replaced(sectors[sectorIdx], 0, chunk) == chunk;
          sectors := sectors[sectorIdx := chunk];
        } else {
          if !bounceOk {
            break;
          }
          var bounce := WriteBounce(sectors[sectorIdx], sectorOfs, chunkSize, sectorLeft, chunk);
          sectors := sectors[sectorIdx := bounce];
        }
        assert sectors == before[sectorIdx := Replaced(before[sectorIdx], sectorOfs, chunk)];
        WriteChunk(f, before, sectorIdx, sectorOfs, p, buffer, written, chunkSize);
        written := written + chunkSize;
        size := size - chunkSize;
        offset := offset + chunkSize;
      }
    }

    /** A write and then a read of the same range, at any alignment, memory permitting: what is read is what was
        written and stands in the file, which is otherwise as it was. */
    method ReadBack(start: nat, length: nat, buffer: seq<Byte>, size: int, offset: nat) returns (got: seq<Byte>)
      requires Fits(sectors, start, length) && size <= |buffer|
      modifies this
      ensures Fits(sectors, start, length) && got == buffer[..Count(size, offset, length)]
      ensures File(sectors, start, length)
           == if got == [] then old(File(sectors, start, length)) else Replaced(old(File(sectors, start, length)), offset, got)
      ensures got != [] ==> got == File(sectors, start, length)[offset..offset + |got|]
    {
      ghost var before := sectors;
      var written := WriteAt(start, length, 0, buffer, size, offset, true);
      got := ReadAt(start, length, size, offset, true);
      hide Flat;
      if got != [] {
        WriteThenFile(before, start, length, offset, buffer[..written], sectors);
        ReadIsFile(sectors, start, length, offset, got);
      }
    }
  }

  /** Fills the bounce buffer: the sector's old contents around the chunk. */
  method WriteBounce(sector: seq<Byte>, ofs: nat, n: nat, left: nat, chunk: seq<Byte>) returns (bounce: seq<Byte>)
    requires |sector| == 512 && ofs + n <= 512 && left == 512 - ofs && |chunk| == n && !(ofs == 0 && n == 512)
    ensures bounce == Replaced(sector, ofs, chunk)
  {
    if ofs > 0 || n < left {
      bounce := sector;
    } else {
      bounce := ZeroSector();
    }
    bounce := bounce[..ofs] + chunk + bounce[ofs + n..];
  }

  lemma WriteNothing(f: seq<Byte>, p: nat, buffer: seq<Byte>)
    ensures IsReplaced(f, p, buffer[..0], f)
  {
  }

  lemma WriteChunk(f: seq<Byte>, disk: Disk, s: nat, ofs: nat, p: nat, buffer: seq<Byte>, done: nat, n: nat)
    requires Formatted(disk) && s < |disk| && 0 < n && ofs + n <= 512 && done + n <= |buffer|
    requires IsReplaced(f, p, buffer[..done], Flat(disk)) && 512 * s + ofs == p + done
    ensures var disk' := disk[s := Replaced(disk[s], ofs, buffer[done..done + n])];
      Formatted(disk') && IsReplaced(f, p, buffer[..done + n], Flat(disk'))
  {
    hide Flat;
    FlatUpdate(disk, s, ofs, buffer[done..done + n]);
    assert buffer[..done] + buffer[done..done + n] == buffer[..done + n];
    if done > 0 {
      ReplacedTwice(f, p, buffer[..done], buffer[done..done + n]);
    } else {
      assert buffer[done..done + n] == buffer[..done + n];
    }
  }

  lemma ReadChunk(f: seq<Byte>, base: nat, ofs: nat, n: nat, p: nat, bytes: seq<Byte>, chunk: seq<Byte>)
    requires base + 512 <= |f| && ofs + n <= 512 && base + ofs == p + |bytes|
    requires IsSlice(f, p, bytes)
    requires chunk == f[base..base + 512][ofs..ofs + n]
    ensures IsSlice(f, p, bytes + chunk)
  {
    assert forall i :: 0 <= i < n ==> chunk[i] == f[base + ofs + i];
    assert chunk == f[base + ofs..base + ofs + n];
    assert bytes != [] ==> bytes + chunk == f[p..p + |bytes| + n];
    assert bytes == [] ==> bytes + chunk == chunk;
  }

  // ---------------------------------------------------------------- files as byte arrays

  /** The contents of a file. */
  ghost function File(disk: Disk, start: nat, length: nat): (b: seq<Byte>)
    requires Fits(disk, start, length)
    ensures |b| == length
  {
    FlatLength(disk);
    Flat(disk)[512 * start..512 * start + length]
  }

  /** A transfer of a write, as seen by the two contracts above. */
  ghost predicate Wrote(disk: Disk, start: nat, offset: nat, bytes: seq<Byte>, disk2: Disk) {
    Formatted(disk) && Formatted(disk2) && |disk| == |disk2|
    && IsReplaced(Flat(disk), 512 * start + offset, bytes, Flat(disk2))
  }

  /** A write within the file replaces the bytes at its offset and keeps every other byte of it. */
  lemma WriteThenFile(disk: Disk, start: nat, length: nat, offset: nat, bytes: seq<Byte>, disk2: Disk)
    requires Fits(disk, start, length) && Wrote(disk, start, offset, bytes, disk2) && offset + |bytes| <= length
    ensures Fits(disk2, start, length)
    ensures File(disk2, start, length) == Replaced(File(disk, start, length), offset, bytes)
  {
    FlatLength(disk);
    FlatLength(disk2);
    var f := Flat(disk);
    hide Flat;
    var a, b, c := f[..512 * start], f[512 * start..512 * start + length], f[512 * start + length..];
    assert f == a + b + c;
    if bytes != [] {
      SliceUpdate(a, b, c, offset, bytes);
    }
  }

  /** A write leaves every sector outside the file's extent as it was. */
  lemma WriteThenOther(disk: Disk, start: nat, length: nat, offset: nat, bytes: seq<Byte>, disk2: Disk, s: nat)
    requires Fits(disk, start, length) && Wrote(disk, start, offset, bytes, disk2) && offset + |bytes| <= length
    requires s < |disk| && !(start <= s < start + Sectors(length))
    ensures disk2[s] == disk[s]
  {
    FlatSector(disk, s);
    FlatSector(disk2, s);
    hide Flat;
    if bytes != [] {
      Outside(Flat(disk), 512 * start + offset, bytes, 512 * s);
    }
  }

  lemma Outside(f: seq<Byte>, p: nat, b: seq<Byte>, q: nat)
    requires p + |b| <= |f| && q + 512 <= |f| && (q + 512 <= p || p + |b| <= q)
    ensures Replaced(f, p, b)[q..q + 512] == f[q..q + 512]
  {
  }

  /** What a read returns is the file's own bytes, whatever the sectors around it hold. */
  lemma ReadIsFile(disk: Disk, start: nat, length: nat, offset: nat, got: seq<Byte>)
    requires Fits(disk, start, length) && IsSlice(Flat(disk), 512 * start + offset, got) && offset + |got| <= length
    ensures got == File(disk, start, length)[offset..offset + |got|]
  {
    FlatLength(disk);
    hide Flat;
  }
}
