/** stream.c: byte reads over a disk that is read a sector at a time. */
module DiskStream {
  import opened Words

  const SECTOR := 512

  /** A read that never runs over the end of the 512-byte sector buffer: it starts at a sector
      boundary or stays inside one sector. */
  predicate Safe(pos: int, total: int)
  {
    pos % SECTOR == 0 || pos % SECTOR + total <= SECTOR
  }

  /** The reads of the sector buffer that the code makes for (pos, total), each inside the buffer. */
  predicate BufferReadsInside(pos: nat, total: nat)
    decreases total
  {
    var toRead := if total > SECTOR then SECTOR else total;
    && (toRead > 0 ==> pos % SECTOR + toRead <= SECTOR)
    && (total > SECTOR ==> BufferReadsInside(pos + toRead, total - toRead))
  }

  /** Safe is exactly the condition under which all of them are. */
  lemma {:induction false} SafeIsExact(pos: nat, total: nat)
    ensures BufferReadsInside(pos, total) <==> Safe(pos, total)
    decreases total
  {
    if total > SECTOR {
      assert (pos + SECTOR) % SECTOR == pos % SECTOR;
      SafeIsExact(pos + SECTOR, total - SECTOR);
    }
  }

  /** For example: two bytes from the last byte of a sector. */
  lemma {:induction false} ReadOverSectorEnd()
    ensures !BufferReadsInside(511, 2) && !Safe(511, 2)
    ensures BufferReadsInside(511, 1) && BufferReadsInside(512, 600) && !BufferReadsInside(256, 512)
  {
  }

  /** s with t written over it from position at. */
  function Splice(s: seq<Byte>, at: nat, t: seq<Byte>): (r: seq<Byte>)
    requires at + |t| <= |s|
    ensures |r| == |s|
  {
    s[..at] + t + s[at + |t|..]
  }

  /** Writing two neighbouring slices of the disk one after the other is writing their union. */
  lemma {:induction false} SpliceDisk(s: seq<Byte>, at: nat, disk: seq<Byte>, p: nat, n: nat, total: nat)
    requires n <= total && p + total <= |disk| && at + total <= |s|
    ensures Splice(Splice(s, at, disk[p..p + n]), at + n, disk[p + n..p + n + (total - n)])
            == Splice(s, at, disk[p..p + total])
  {
    assert disk[p..p + total] == disk[p..p + n] + disk[p + n..p + total];
  }

  class Stream {
    const disk: seq<Byte>
    var pos: Int

    constructor (disk: seq<Byte>)
      ensures this.disk == disk && pos == 0
    {
      this.disk := disk;
      pos := 0;
    }

    /** disk_stream_seek. */
    method Seek(pos: Int) returns (result: int)
      modifies this
      ensures this.pos == pos && result == 0
    {
      this.pos := pos;
      result := 0;
    }

    /** disk_read_blocks, for one sector of the one disk there is. */
    method ReadSector(sector: int, tmp: array<Byte>) returns (result: int)
      requires tmp.Length == SECTOR && 0 <= sector && (sector + 1) * SECTOR <= |disk|
      modifies tmp
      ensures result == 0 && tmp[..] == disk[sector * SECTOR..(sector + 1) * SECTOR]
    {
      var i := 0;
      while i < SECTOR
        invariant 0 <= i <= SECTOR
        invariant forall k :: 0 <= k < i ==> tmp[k] == disk[sector * SECTOR + k]
      {
        tmp[i] := disk[sector * SECTOR + i];
        i := i + 1;
      }
      result := 0;
    }

    /** The copy loop of disk_stream_read. */
    method CopyOut(buf: array<Byte>, at: nat, tmp: array<Byte>, offset: nat, n: nat)
      requires buf != tmp && at + n <= buf.Length && offset + n <= tmp.Length
      modifies buf
      ensures buf[..] == Splice(old(buf[..]), at, tmp[offset..offset + n])
    {
      ghost var s := buf[..];
      var i := 0;
      while i < n
        invariant 0 <= i <= n
        invariant forall k :: at <= k < at + i ==> buf[k] == tmp[offset + (k - at)]
        invariant forall k :: 0 <= k < buf.Length && !(at <= k < at + i) ==> buf[k] == s[k]
      {
        buf[at + i] := tmp[offset + i];
        i := i + 1;
      }
    }

    /** One round of disk_stream_read: a sector is read and n of its bytes are copied. */
    method ReadRound(buf: array<Byte>, at: nat, n: nat) returns (result: int)
      requires at + n <= buf.Length && |disk| % SECTOR == 0
      requires 0 <= pos < |disk| && pos % SECTOR + n <= SECTOR && pos + n < 0x8000_0000
      modifies this, buf
      ensures result == 0 && pos == old(pos) + n <= |disk|
      ensures buf[..] == Splice(old(buf[..]), at, disk[old(pos)..old(pos) + n])
    {
      var tmp := new Byte[SECTOR](_ => 0);
      SectorInside(|disk|, pos);
      result := ReadSector(pos / SECTOR, tmp);
      if result < 0 {
        return;
      }
      SliceOfSector(disk, tmp[..], pos, n);
      CopyOut(buf, at, tmp, pos % SECTOR, n);
      pos := pos + n;
    }

    /** disk_stream_read: buf[at..at+total] becomes the flat slice of the disk at the position of the
        stream, which moves on by total. */
    method Read(buf: array<Byte>, at: nat, total: nat) returns (result: int)
      requires at + total <= buf.Length && |disk| % SECTOR == 0
      requires 0 <= pos < |disk| && pos + total <= |disk| && pos + total < 0x8000_0000 && Safe(pos, total)
      modifies this, buf
      ensures result == 0 && pos == old(pos) + total
      ensures buf[..] == Splice(old(buf[..]), at, disk[old(pos)..old(pos) + total])
      decreases total, 1
    {
      var needMore := total > SECTOR;
      var toRead := if needMore then SECTOR else total;
      FirstSector(pos, total);
      result := ReadRound(buf, at, toRead);
      if result < 0 {
        return;
      }
      if needMore {
        result := ReadMore(buf, at, total, old(buf[..]), old(pos));
      }
    }

    /** The recursive call of disk_stream_read, behind the first sector. */
    method ReadMore(buf: array<Byte>, at: nat, total: nat, ghost s: seq<Byte>, ghost p: nat) returns (result: int)
      requires at + total <= buf.Length == |s| && |disk| % SECTOR == 0 && total > SECTOR
      requires pos == p + SECTOR && p + total <= |disk| && p + total < 0x8000_0000 && Safe(p + SECTOR, total - SECTOR)
      requires buf[..] == Splice(s, at, disk[p..p + SECTOR])
      modifies this, buf
      ensures result == 0 && pos == p + total
      ensures buf[..] == Splice(s, at, disk[p..p + total])
      decreases total, 0
    {
      result := Read(buf, at + SECTOR, total - SECTOR);
      SpliceDisk(s, at, disk, p, SECTOR, total);
    }
  }

  /** A safe read stays in the first sector, and what is left of it is safe. */
  lemma {:induction false} FirstSector(pos: int, total: nat)
    requires Safe(pos, total)
    ensures pos % SECTOR + (if total > SECTOR then SECTOR else total) <= SECTOR
    ensures total > SECTOR ==> Safe(pos + SECTOR, total - SECTOR)
  {
    var q := pos / SECTOR;
    assert pos == SECTOR * q + pos % SECTOR;
    assert pos + SECTOR == SECTOR * (q + 1) + pos % SECTOR;
  }

  lemma {:induction false} SliceOfSector(disk: seq<Byte>, tmp: seq<Byte>, pos: nat, n: nat)
    requires (pos / SECTOR + 1) * SECTOR <= |disk|
    requires tmp == disk[pos / SECTOR * SECTOR..(pos / SECTOR + 1) * SECTOR] && pos % SECTOR + n <= SECTOR
    ensures pos + n <= |disk| && tmp[pos % SECTOR..pos % SECTOR + n] == disk[pos..pos + n]
  {
    var a, o := pos / SECTOR * SECTOR, pos % SECTOR;
    assert pos == a + o;
    assert disk[a..a + SECTOR][o..o + n] == disk[a + o..a + o + n];
  }

  lemma {:induction false} SectorInside(size: nat, pos: nat)
    requires size % SECTOR == 0 && pos < size
    ensures (pos / SECTOR + 1) * SECTOR <= size
  {
    var n, q := size / SECTOR, pos / SECTOR;
    assert size == SECTOR * n && pos == SECTOR * q + pos % SECTOR;
  }
}
