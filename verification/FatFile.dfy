/** Open files of fat16.c: the position kept between reads, and how far it can go. */
module FatFile {
  import opened Words
  import opened Options
  import opened Arith
  import opened DiskStream
  import opened FatChain
  import opened Fat16

  datatype Whence = Set | Cur | Other

  class FatDescriptor {
    const isFile: bool
    const firstCluster: nat
    const fileSize: Word
    var pos: Word

    /** What fat16_open makes of an entry. */
    constructor (isFile: bool, firstCluster: nat, fileSize: Word)
      ensures this.isFile == isFile && this.firstCluster == firstCluster && this.fileSize == fileSize && pos == 0
    {
      this.isFile := isFile;
      this.firstCluster := firstCluster;
      this.fileSize := fileSize;
      pos := 0;
    }

    /** fat16_seek: only the distance is compared with the size, not the position it leads to. */
    method Seek(offset: Word, whence: Whence) returns (res: int)
      modifies this
      ensures res == if !isFile then -EINVAL else if offset >= fileSize then -EIO
                     else if whence == Other then -EINVAL else 0
      ensures res != 0 ==> pos == old(pos)
      ensures res == 0 ==> pos == if whence == Set then offset else U32(old(pos) + offset)
    {
      if !isFile {
        return -EINVAL;
      }
      if offset >= fileSize {
        return -EIO;
      }
      match whence {
        case Set => pos := offset;
        case Cur => pos := U32(pos + offset);
        case Other => return -EINVAL;
      }
      res := 0;
    }

    /** fat16_read, from the position, which stays. */
    method Read(reader: FatReader, size: nat, nmemb: Word, out: array<Byte>) returns (res: int)
      requires reader.Valid() && 0 < size < 0x8000_0000 && nmemb > 0 && Total(nmemb, size) <= out.Length
      requires reader.ItemsOk(firstCluster, pos, size, nmemb)
      modifies reader.clusterStream, reader.fatStream, out
      ensures res == if reader.ItemsReached(firstCluster, pos, size, nmemb) then I32(nmemb) else -EIO
      ensures reader.ItemsReached(firstCluster, pos, size, nmemb) ==>
                reader.ItemsFetched(out[..], firstCluster, pos, size, nmemb)
    {
      res := reader.ReadItems(firstCluster, pos, size, nmemb, out);
    }
  }

  /** Positions within the file: seeking keeps to them exactly if it does not add past the end. */
  lemma SeekStaysInFile(pos: Word, offset: Word, fileSize: Word)
    requires pos < fileSize && offset < fileSize
    ensures U32(pos + offset) < fileSize && U32(pos + offset) >= pos
            <==> pos + offset < fileSize
  {
    if pos + offset >= WORD_RANGE {
      assert U32(pos + offset) == pos + offset - WORD_RANGE;
    }
  }

  /** For example: in a file of 1.5 GiB whose chain has one cluster, two steps forward of 1 GiB are
      accepted, and a read of a sector there succeeds with the bytes of the first cluster. */
  method ReadFarBeyond(reader: FatReader, out: array<Byte>) returns (file: FatDescriptor, res: int)
    requires reader.Valid() && reader.volume.sectorsPerCluster == 1 && out.Length == SECTOR
    requires reader.FatReadable(2) && reader.Entry(2) == 0
    requires 0 <= reader.volume.ClusterStart(2) && reader.volume.ClusterStart(2) + SECTOR <= |reader.disk|
    modifies reader.clusterStream, reader.fatStream, out
    ensures file.pos == 0x8000_0000 > file.fileSize && res == 1
    ensures Walk(reader.Fat(), 2, Quot(file.pos, SECTOR)).None?
    ensures out[..] == reader.disk[reader.volume.ClusterStart(2)..reader.volume.ClusterStart(2) + SECTOR]
  {
    file := new FatDescriptor(true, 2, 0x6000_0000);
    res := file.Seek(0x4000_0000, Cur);
    assert res == 0 && file.pos == 0x4000_0000;
    res := file.Seek(0x4000_0000, Cur);
    assert res == 0 && file.pos == 0x8000_0000;
    FarItem(reader);
    res := file.Read(reader, SECTOR, 1, out);
    FarItemFetched(reader, out[..]);
  }

  const FAR: Word := 0x8000_0000

  lemma {:induction false} FarItem(reader: FatReader)
    requires reader.Valid() && reader.volume.sectorsPerCluster == 1
    requires reader.FatReadable(2) && reader.Entry(2) == 0
    requires 0 <= reader.volume.ClusterStart(2) && reader.volume.ClusterStart(2) + SECTOR <= |reader.disk|
    ensures ItemOffset(FAR, SECTOR, 0) == -0x8000_0000 && InCluster(reader.volume, -0x8000_0000) == 0
    ensures reader.ItemsOk(2, FAR, SECTOR, 1) && reader.ItemsReached(2, FAR, SECTOR, 1)
    ensures Walk(reader.Fat(), 2, Quot(FAR, SECTOR)).None?
  {
    FarPlace(reader.volume);
    FarWalkStops(reader.Fat());
    FarRound(reader);
    assert reader.ItemOk(2, FAR, SECTOR, 0);
    assert reader.ItemReached(2, FAR, SECTOR, 0);
  }

  lemma {:induction false} FarPlace(v: Volume)
    requires v.sectorsPerCluster == 1
    ensures ItemOffset(FAR, SECTOR, 0) == -0x8000_0000 && InCluster(v, -0x8000_0000) == 0
  {
    QuotRemIsDivMod(FAR, SECTOR);
    assert Total(0, SECTOR) == 0;
    FarOffset(FAR);
  }

  lemma {:induction false} FarWalkStops(fat: int -> int)
    requires fat(2) == 0
    ensures Walk(fat, 2, 0) == Some(2) && Walk(fat, 2, Quot(FAR, SECTOR)).None?
  {
    QuotRemIsDivMod(FAR, SECTOR);
    assert Walk(fat, 2, 0) == Some(2) && Walk(fat, 2, 1) == None;
    StoppedWalk(fat, 2, 1, Quot(FAR, SECTOR));
  }

  lemma {:induction false} FarRound(reader: FatReader)
    requires reader.Valid() && reader.volume.sectorsPerCluster == 1
    requires 0 <= reader.volume.ClusterStart(2) && reader.volume.ClusterStart(2) + SECTOR <= |reader.disk|
    ensures reader.OnDisk(2, -0x8000_0000, SECTOR)
  {
    FarPlace(reader.volume);
    assert Walk(reader.Fat(), 2, 0) == Some(2);
    assert reader.volume.ClusterStart(2) == SECTOR * reader.volume.endingSector;
    assert reader.RoundOk(2, -0x8000_0000, SECTOR);
  }

  lemma {:induction false} FarItemFetched(reader: FatReader, out: seq<Byte>)
    requires reader.Valid() && reader.volume.sectorsPerCluster == 1 && |out| == SECTOR
    requires 0 <= reader.volume.ClusterStart(2) && reader.volume.ClusterStart(2) + SECTOR <= |reader.disk|
    requires ItemOffset(FAR, SECTOR, 0) == -0x8000_0000 && InCluster(reader.volume, -0x8000_0000) == 0
    requires reader.ItemsFetched(out, 2, FAR, SECTOR, 1)
    ensures out == reader.disk[reader.volume.ClusterStart(2)..reader.volume.ClusterStart(2) + SECTOR]
  {
    var start := reader.volume.ClusterStart(2);
    assert reader.ItemFetched(out, 2, FAR, SECTOR, 0) && Total(0, SECTOR) == 0;
    assert Walk(reader.Fat(), 2, 0) == Some(2);
    forall i | 0 <= i < SECTOR ensures out[i] == reader.disk[start + i] {
      assert reader.FetchedByte(out, 0, 2, -0x8000_0000, i);
    }
  }
}
