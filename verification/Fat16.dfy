/** The cluster reader of fat16.c over the sector stream. */
module Fat16 {
  import opened Words
  import opened Options
  import opened Arith
  import opened DiskStream
  import opened FatChain

  /** Where fat16_get_fat_entry looks for the entry of a cluster: the position of the table times the
      offset of the entry in it. */
  function CodedPosition(reservedSectors: Word, cluster: int): Word
  {
    U32(U32(reservedSectors * SECTOR) * U32(cluster * 2))
  }

  /** Where the entry stands: that offset behind the position of the table. */
  function EntryPosition(reservedSectors: Word, cluster: int): Word
  {
    U32(reservedSectors * SECTOR + cluster * 2)
  }

  /** The position as disk_stream_seek takes it. */
  function LocateAsCoded(reservedSectors: Word): int -> int
  {
    c => I32(CodedPosition(reservedSectors, c))
  }

  /** The right one. */
  function LocateEntry(reservedSectors: Word): int -> int
  {
    c => I32(EntryPosition(reservedSectors, c))
  }

  /** Neither makes the two bytes of an entry run over the end of a sector. */
  lemma {:induction false} EntryInSector(reservedSectors: Word, cluster: int)
    ensures Safe(LocateAsCoded(reservedSectors)(cluster), 2) && Safe(LocateEntry(reservedSectors)(cluster), 2)
  {
    CodedAligned(reservedSectors, U32(cluster * 2));
    var y := reservedSectors * 256 + cluster;
    WrappedEven(y);
    EvenInSector(I32(U32(2 * y)));
  }

  lemma {:induction false} CodedAligned(reserved: Word, x: Word)
    ensures I32(U32(U32(reserved * SECTOR) * x)) % SECTOR == 0
  {
    var t := U32(reserved * SECTOR);
    WrappedSectors(reserved);
    var y := t / SECTOR;
    assert t == SECTOR * y;
    assert t * x == SECTOR * (y * x);
    WrappedSectors(y * x);
  }

  /** Wrapping to 32 bits keeps multiples of the sector size and of 2. */
  lemma {:induction false} WrappedSectors(y: int)
    ensures U32(SECTOR * y) % SECTOR == 0 && I32(U32(SECTOR * y)) % SECTOR == 0
  {
    var k := SECTOR * y / WORD_RANGE;
    var z := y - 0x80_0000 * k;
    assert U32(SECTOR * y) == SECTOR * z;
    assert I32(SECTOR * z) == SECTOR * z || I32(SECTOR * z) == SECTOR * (z - 0x80_0000);
  }

  lemma {:induction false} WrappedEven(y: int)
    ensures I32(U32(2 * y)) % 2 == 0
  {
    var k := 2 * y / WORD_RANGE;
    var z := y - 0x8000_0000 * k;
    assert U32(2 * y) == 2 * z;
    assert I32(2 * z) == 2 * z || I32(2 * z) == 2 * (z - 0x8000_0000);
  }

  lemma {:induction false} EvenInSector(x: int)
    requires x % 2 == 0
    ensures Safe(x, 2)
  {
    var q, h := x / SECTOR, x / 2;
    assert x == 2 * h && x == SECTOR * q + x % SECTOR;
    assert x % SECTOR == 2 * (h - 256 * q);
  }

  /** For example: one reserved sector, and the first cluster there is. */
  lemma {:induction false} FirstEntryMissed()
    ensures LocateAsCoded(1)(2) == 2048 && LocateEntry(1)(2) == 516
  {
  }

  /** The reader of a FAT volume. Where it takes a cluster's entry from is a parameter, LocateAsCoded in
      the code, so that what is proved holds for the right one as well. */
  class FatReader {
    const disk: seq<Byte>
    const volume: Volume
    const locate: int -> int
    const clusterStream: Stream
    const fatStream: Stream

    ghost predicate Valid()
    {
      && clusterStream != fatStream && clusterStream.disk == disk && fatStream.disk == disk
      && |disk| % SECTOR == 0 && |disk| < 0x8000_0000
      && volume.sectorsPerCluster > 0
    }

    constructor (disk: seq<Byte>, volume: Volume, locate: int -> int)
      requires |disk| % SECTOR == 0 && |disk| < 0x8000_0000 && volume.sectorsPerCluster > 0
      ensures Valid() && this.disk == disk && this.volume == volume && this.locate == locate
      ensures fresh(clusterStream) && fresh(fatStream)
    {
      this.disk := disk;
      this.volume := volume;
      this.locate := locate;
      clusterStream := new Stream(disk);
      fatStream := new Stream(disk);
    }

    /** The entry of a cluster can be read: it lies on the disk, inside one sector. */
    predicate FatReadable(cluster: int)
    {
      0 <= locate(cluster) && locate(cluster) + 2 <= |disk| && Safe(locate(cluster), 2)
    }

    /** The entry found there. */
    function Entry(cluster: int): (e: int)
      ensures 0 <= e <= 0xFFFF
    {
      if FatReadable(cluster) then disk[locate(cluster)] + 0x100 * (disk[locate(cluster) + 1] as int) else 0
    }

    function Fat(): int -> int
    {
      c => Entry(c)
    }

    /** fat16_get_fat_entry. */
    method GetFatEntry(cluster: int) returns (entry: int)
      requires Valid() && FatReadable(cluster)
      modifies fatStream
      ensures entry == disk[locate(cluster)] + 0x100 * (disk[locate(cluster) + 1] as int) == Entry(cluster)
    {
      var position := locate(cluster);
      var res := fatStream.Seek(position);
      var buf := new Byte[2](_ => 0);
      res := fatStream.Read(buf, 0, 2);
      assert buf[..] == disk[position..position + 2];
      entry := buf[0] + 0x100 * (buf[1] as int);
    }

    /** All table entries and clusters that a read of `total` bytes at `offset` comes to lie on the
        disk, as far as the chain goes, and each round keeps to the sector condition. */
    ghost predicate OnDisk(cluster: int, offset: int, total: nat)
      requires Valid()
      decreases total
    {
      var s := volume.ClusterBytes();
      && RoundOk(cluster, offset, if total > s then s else total)
      && (total > s ==> OnDisk(cluster, offset + s, total - s))
    }

    ghost predicate RoundOk(cluster: int, offset: int, toRead: nat)
      requires Valid()
    {
      && (forall k :: 0 <= k < ClustersAhead(volume, offset) ==> LinkReadable(cluster, k))
      && (Walk(Fat(), cluster, ClustersAhead(volume, offset)).Some? ==>
            var start := RoundStart(ClusterAt(Fat(), cluster, ClustersAhead(volume, offset)), offset);
            0 <= start < |disk| && start + toRead <= |disk| && Safe(start, toRead))
    }

    /** The entry of the k-th cluster of the chain, if there is one, can be read. */
    predicate LinkReadable(cluster: int, k: nat)
    {
      Walk(Fat(), cluster, k).Some? ==> FatReadable(ClusterAt(Fat(), cluster, k))
    }

    /** C's division of an offset by the cluster size, which rounds towards zero. */
    method SplitOffset(offset: int) returns (clustersAhead: int, offsetFromCluster: int)
      requires volume.sectorsPerCluster > 0
      ensures if offset < 0 then clustersAhead <= 0 else clustersAhead == ClustersAhead(volume, offset)
      ensures offsetFromCluster == InCluster(volume, offset)
    {
      var s := volume.ClusterBytes();
      QuotRemIsDivMod(if offset < 0 then -offset else offset, s);
      if offset < 0 {
        clustersAhead, offsetFromCluster := -((-offset) / s), -((-offset) % s);
      } else {
        clustersAhead, offsetFromCluster := offset / s, offset % s;
      }
    }

    /** fat16_get_cluster_for_offset: the cluster of the chain, or -EIO if a stop value comes before it. */
    method GetClusterForOffset(startingCluster: nat, offset: int) returns (result: int)
      requires Valid()
      requires forall k :: 0 <= k < ClustersAhead(volume, offset) ==> LinkReadable(startingCluster, k)
      modifies fatStream
      ensures match Walk(Fat(), startingCluster, ClustersAhead(volume, offset))
              case None => result == -EIO
              case Some(d) => result == d >= 0
    {
      var clusterToUse: int := startingCluster;
      var clustersAhead, _ := SplitOffset(offset);
      var i := 0;
      while i < clustersAhead
        invariant 0 <= i <= ClustersAhead(volume, offset)
        invariant Walk(Fat(), startingCluster, i) == Some(clusterToUse) && clusterToUse >= 0
      {
        assert LinkReadable(startingCluster, i) && ClusterAt(Fat(), startingCluster, i) == clusterToUse;
        var entry := GetFatEntry(clusterToUse);
        LinkFollowed(Fat(), startingCluster, i, clusterToUse, ClustersAhead(volume, offset));
        if IsStop(entry) {
          return -EIO;
        }
        clusterToUse := entry;
        i := i + 1;
      }
      result := clusterToUse;
    }

    /** Where a round of reading starts. */
    function RoundStart(clusterToUse: int, offset: int): int
      requires volume.sectorsPerCluster > 0
    {
      volume.ClusterStart(clusterToUse) + InCluster(volume, offset)
    }

    /** Seek and read of one round. */
    method ReadRound(clusterToUse: int, offset: int, toRead: nat, out: array<Byte>, at: nat) returns (result: int)
      requires Valid() && at + toRead <= out.Length
      requires 0 <= RoundStart(clusterToUse, offset) < |disk| && RoundStart(clusterToUse, offset) + toRead <= |disk|
      requires Safe(RoundStart(clusterToUse, offset), toRead)
      modifies clusterStream, out
      ensures result == 0
      ensures out[..] == Splice(old(out[..]), at,
                                disk[RoundStart(clusterToUse, offset)..RoundStart(clusterToUse, offset) + toRead])
    {
      var _, offsetFromCluster := SplitOffset(offset);
      var startingPos := volume.ClusterStart(clusterToUse) + offsetFromCluster;
      result := clusterStream.Seek(startingPos);
      if result < 0 {
        return;
      }
      result := clusterStream.Read(out, at, toRead);
    }

    /** The cluster of the offset, and the first round of reading from it. */
    method FirstRound(cluster: nat, offset: int, toRead: nat, out: array<Byte>, at: nat) returns (result: int)
      requires Valid() && at + toRead <= out.Length && RoundOk(cluster, offset, toRead)
      requires toRead <= volume.ClusterBytes()
      modifies clusterStream, fatStream, out
      ensures result == if Walk(Fat(), cluster, ClustersAhead(volume, offset)).Some? then 0 else -EIO
      ensures result == 0 ==> Fetched(out[..], at, cluster, offset, toRead)
      ensures SameBut(old(out[..]), out[..], at, toRead)
    {
      var clusterToUse := GetClusterForOffset(cluster, offset);
      if clusterToUse < 0 {
        return clusterToUse;
      }
      assert ClusterAt(Fat(), cluster, ClustersAhead(volume, offset)) == clusterToUse;
      result := ReadRound(clusterToUse, offset, toRead, out, at);
      FetchedRound(old(out[..]), out[..], at, cluster, clusterToUse, offset, toRead);
    }

    /** The offsets of all rounds of a read are within `int`. */
    predicate FitsInt(offset: int, total: nat)
      requires volume.sectorsPerCluster > 0
      decreases total
    {
      var s := volume.ClusterBytes();
      total > s ==> offset + s < 0x8000_0000 && FitsInt(offset + s, total - s)
    }

    /** fat16_read_internal_from_stream: out[at..at+total] gets the bytes of the read positions, or
        -EIO is returned, exactly when a stop value is met on the links followed. */
    method ReadInternal(cluster: nat, offset: Int, total: nat, out: array<Byte>, at: nat) returns (result: int)
      requires Valid() && at + total <= out.Length && OnDisk(cluster, offset, total)
      requires FitsInt(offset, total)
      modifies clusterStream, fatStream, out
      ensures result == if Walk(Fat(), cluster, LinksFollowed(volume, offset, total)).Some? then 0 else -EIO
      ensures result == 0 ==> Fetched(out[..], at, cluster, offset, total)
      ensures SameBut(old(out[..]), out[..], at, total)
      decreases total, 1
    {
      var toRead := if total > volume.ClusterBytes() then volume.ClusterBytes() else total;
      result := FirstRound(cluster, offset, toRead, out, at);
      if result < 0 {
        StoppedEarly(volume, Fat(), cluster, offset, total);
        return;
      }
      if total - toRead > 0 {
        ghost var before, first := old(out[..]), out[..];
        result := RestOfRead(cluster, offset, total, out, at);
        SameButJoin(before, first, out[..], at, toRead, total);
      }
    }

    /** The recursive call, for what is left behind the first round. */
    method RestOfRead(cluster: nat, offset: Int, total: nat, out: array<Byte>, at: nat) returns (result: int)
      requires Valid() && at + total <= out.Length && OnDisk(cluster, offset, total) && FitsInt(offset, total)
      requires total > volume.ClusterBytes() && Fetched(out[..], at, cluster, offset, volume.ClusterBytes())
      modifies clusterStream, fatStream, out
      ensures result == if Walk(Fat(), cluster, LinksFollowed(volume, offset, total)).Some? then 0 else -EIO
      ensures result == 0 ==> Fetched(out[..], at, cluster, offset, total)
      ensures SameBut(old(out[..]), out[..], at + volume.ClusterBytes(), total - volume.ClusterBytes())
      decreases total, 0
    {
      var toRead := volume.ClusterBytes();
      ghost var first := out[..];
      NextRound(cluster, offset, total);
      result := ReadInternal(cluster, offset + toRead, total - toRead, out, at + toRead);
      if result == 0 {
        FetchedJoin(first, out[..], at, cluster, offset, total, toRead);
      }
    }

    /** The bytes at out[at..at+total] are those of the chain from `offset`. */
    ghost predicate FromChain(out: seq<Byte>, at: nat, cluster: int, offset: nat, total: nat)
      requires volume.sectorsPerCluster > 0 && at + total <= |out|
    {
      forall i :: 0 <= i < total ==> ChainByteAt(out, at, cluster, offset, i)
    }

    ghost predicate ChainByteAt(out: seq<Byte>, at: nat, cluster: int, offset: nat, i: nat)
      requires volume.sectorsPerCluster > 0 && at + i < |out|
    {
      var p := ChainPosition(volume, Fat(), cluster, offset + i);
      0 <= p < |disk| && out[at + i] == disk[p]
    }

    /** A read that starts at a cluster boundary or stays in one cluster fetches chain bytes. */
    lemma {:induction false} WithinFetchesChain(out: seq<Byte>, at: nat, cluster: int, offset: nat, total: nat)
      requires Valid() && at + total <= |out| && Fetched(out, at, cluster, offset, total)
      requires WithinCluster(offset, total)
      ensures FromChain(out, at, cluster, offset, total)
    {
      forall i | 0 <= i < total ensures ChainByteAt(out, at, cluster, offset, i) {
        WithinClusters(volume, offset, total);
        ReadFromIsReadPosition(volume, Fat(), cluster, offset, i);
        ReadPositionIsChainPosition(volume, Fat(), cluster, offset, i);
        assert FetchedByte(out, at, cluster, offset, i);
      }
    }

    /** The bytes at out[at..at+total] are the slice from `offset` of the concatenated clusters, if the
        clusters up to the end of the slice lie on the disk. */
    ghost predicate FromFile(out: seq<Byte>, at: nat, cluster: int, offset: nat, total: nat)
      requires volume.sectorsPerCluster > 0 && total > 0 && at + total <= |out|
    {
      var n := LinksNeeded(volume, offset, total) + 1;
      ChainOnDisk(volume, Fat(), cluster, n, |disk|) ==>
        && offset + total <= n * volume.ClusterBytes()
        && out[at..at + total] == Flat(volume, Fat(), disk, cluster, n)[offset..offset + total]
    }

    /** Chain bytes are such a slice. */
    lemma {:induction false} ChainIsFlat(out: seq<Byte>, at: nat, cluster: int, offset: nat, total: nat)
      requires Valid() && total > 0 && at + total <= |out| && FromChain(out, at, cluster, offset, total)
      ensures FromFile(out, at, cluster, offset, total)
    {
      var n := LinksNeeded(volume, offset, total) + 1;
      if ChainOnDisk(volume, Fat(), cluster, n, |disk|) {
        QuotBound(offset + total - 1, volume.ClusterBytes());
        var flat := Flat(volume, Fat(), disk, cluster, n);
        var a, b := out[at..at + total], flat[offset..offset + total];
        forall i | 0 <= i < total ensures a[i] == b[i] {
          ChainByteIsFlat(out, at, cluster, offset, i, n);
        }
      }
    }

    lemma {:induction false} ChainByteIsFlat(out: seq<Byte>, at: nat, cluster: int, offset: nat, i: nat, n: nat)
      requires Valid() && at + i < |out| && ChainByteAt(out, at, cluster, offset, i)
      requires ChainOnDisk(volume, Fat(), cluster, n, |disk|) && offset + i < n * volume.ClusterBytes()
      ensures out[at + i] == Flat(volume, Fat(), disk, cluster, n)[offset + i]
    {
      FlatAt(volume, Fat(), disk, cluster, n, offset + i);
    }

    /** That is so exactly if no byte of the read lies behind the end of the cluster of its round. */
    lemma {:induction false} WithinClusterExactly(offset: nat, total: nat)
      requires volume.sectorsPerCluster > 0 && total > 0
      ensures WithinCluster(offset, total) <==> forall i :: 0 <= i < total ==> !Crosses(volume, offset, i)
    {
      var s := volume.ClusterBytes();
      if WithinCluster(offset, total) {
        WithinClusters(volume, offset, total);
      } else {
        assert Crosses(volume, offset, s - Rem(offset, s));
      }
    }

    /** The read starts at a cluster boundary or stays in one cluster. */
    predicate WithinCluster(offset: nat, total: nat)
      requires volume.sectorsPerCluster > 0
    {
      Rem(offset, volume.ClusterBytes()) == 0 || Rem(offset, volume.ClusterBytes()) + total <= volume.ClusterBytes()
    }

    /** A read from a cluster boundary or inside one cluster delivers a slice of the file, exactly if
        the chain reaches the last byte. */
    method ReadSlice(cluster: nat, offset: nat, total: nat, out: array<Byte>, at: nat) returns (result: int)
      requires Valid() && total > 0 && at + total <= out.Length && offset < 0x8000_0000 && FitsInt(offset, total)
      requires WithinCluster(offset, total) && OnDisk(cluster, offset, total)
      modifies clusterStream, fatStream, out
      ensures result == if Walk(Fat(), cluster, LinksNeeded(volume, offset, total)).Some? then 0 else -EIO
      ensures result == 0 ==> FromChain(out[..], at, cluster, offset, total)
      ensures result == 0 ==> FromFile(out[..], at, cluster, offset, total)
      ensures SameBut(old(out[..]), out[..], at, total)
    {
      WithinClusters(volume, offset, total);
      LinksFollowedAreRead(volume, offset, total);
      result := ReadInternal(cluster, offset, total, out, at);
      if result == 0 {
        WithinFetchesChain(out[..], at, cluster, offset, total);
        ChainIsFlat(out[..], at, cluster, offset, total);
      }
    }

    /** A read inside the k-th cluster of a chain delivers bytes of the sectors of that cluster, which
        are counted from the end of the root directory and from cluster 2. */
    method ReadInCluster(cluster: nat, k: nat, from: nat, total: nat, out: array<Byte>, at: nat) returns (result: int)
      requires Valid() && 0 < total && from + total <= volume.sectorsPerCluster * 512 && at + total <= out.Length
      requires k * (volume.sectorsPerCluster * 512) + from < 0x8000_0000
      requires OnDisk(cluster, k * (volume.sectorsPerCluster * 512) + from, total)
      modifies clusterStream, fatStream, out
      ensures match Walk(Fat(), cluster, k)
              case None => result == -5
              case Some(d) =>
                var p := (volume.endingSector + (d - 2) * volume.sectorsPerCluster) * 512 + from;
                result == 0 && 0 <= p && p + total <= |disk| && out[at..at + total] == disk[p..p + total]
      ensures SameBut(old(out[..]), out[..], at, total)
    {
      var offset := k * (volume.sectorsPerCluster * 512) + from;
      PlaceInChain(volume, k, from, total, offset);
      result := ReadInternal(cluster, offset, total, out, at);
      if result == 0 {
        InClusterBytes(out[..], at, cluster, offset, total, k, from);
      }
    }

    lemma {:induction false} InClusterBytes(out: seq<Byte>, at: nat, cluster: int, offset: nat, total: nat, k: nat, from: nat)
      requires Valid() && 0 < total && from + total <= volume.ClusterBytes() && at + total <= |out|
      requires ClustersAhead(volume, offset) == k && InCluster(volume, offset) == from
      requires Fetched(out, at, cluster, offset, total)
      ensures var p := volume.ClusterStart(ClusterAt(Fat(), cluster, k)) + from;
              0 <= p && p + total <= |disk| && out[at..at + total] == disk[p..p + total]
    {
      var p := volume.ClusterStart(ClusterAt(Fat(), cluster, k)) + from;
      assert FetchedByte(out, at, cluster, offset, 0) && FetchedByte(out, at, cluster, offset, total - 1);
      var a, b := out[at..at + total], disk[p..p + total];
      forall i | 0 <= i < total ensures a[i] == b[i] {
        assert FetchedByte(out, at, cluster, offset, i);
      }
    }

    // ----- fread -----

    /** Item k of fread can be read, and no round of it leaves `int`. */
    ghost predicate ItemOk(cluster: int, pos: Word, size: nat, k: nat)
      requires Valid()
    {
      var offset := ItemOffset(pos, size, k);
      FitsInt(offset, size) && OnDisk(cluster, offset, size)
    }

    ghost predicate ItemsOk(cluster: int, pos: Word, size: nat, n: nat)
      requires Valid()
    {
      forall k :: 0 <= k < n ==> ItemOk(cluster, pos, size, k)
    }

    /** The walk for item k meets no stop value. */
    ghost predicate ItemReached(cluster: int, pos: Word, size: nat, k: nat)
      requires volume.sectorsPerCluster > 0
    {
      Walk(Fat(), cluster, LinksFollowed(volume, ItemOffset(pos, size, k), size)).Some?
    }

    ghost predicate ItemsReached(cluster: int, pos: Word, size: nat, n: nat)
      requires volume.sectorsPerCluster > 0
    {
      forall k :: 0 <= k < n ==> ItemReached(cluster, pos, size, k)
    }

    /** Item k stands behind the items before it. */
    ghost predicate ItemFetched(out: seq<Byte>, cluster: int, pos: Word, size: nat, k: nat)
      requires volume.sectorsPerCluster > 0
    {
      Total(k, size) + size <= |out| && Fetched(out, Total(k, size), cluster, ItemOffset(pos, size, k), size)
    }

    ghost predicate ItemsFetched(out: seq<Byte>, cluster: int, pos: Word, size: nat, n: nat)
      requires volume.sectorsPerCluster > 0
    {
      forall k :: 0 <= k < n ==> ItemFetched(out, cluster, pos, size, k)
    }

    /** Item i of fat16_read, behind the items before it. */
    method ReadItem(cluster: nat, pos: Word, offset: Int, at: nat, size: nat, out: array<Byte>, ghost i: nat)
      returns (result: int)
      requires Valid() && at == Total(i, size) && offset == ItemOffset(pos, size, i) && at + size <= out.Length
      requires ItemOk(cluster, pos, size, i) && ItemsFetched(out[..], cluster, pos, size, i)
      modifies clusterStream, fatStream, out
      ensures result == if ItemReached(cluster, pos, size, i) then 0 else -EIO
      ensures result == 0 ==> ItemsFetched(out[..], cluster, pos, size, i + 1)
    {
      ghost var before := out[..];
      result := ReadInternal(cluster, offset, size, out, at);
      if result == 0 {
        forall k | 0 <= k < i + 1 ensures ItemFetched(out[..], cluster, pos, size, k) {
          if k < i {
            assert ItemFetched(before, cluster, pos, size, k);
            EarlierItemStays(before, out[..], cluster, pos, size, k, i);
          }
        }
      }
    }

    lemma {:induction false} EarlierItemStays(before: seq<Byte>, out: seq<Byte>, cluster: int, pos: Word, size: nat, k: nat, i: nat)
      requires Valid() && k < i && SameBut(before, out, Total(i, size), size)
      requires ItemFetched(before, cluster, pos, size, k)
      ensures ItemFetched(out, cluster, pos, size, k)
    {
      TotalMono(k + 1, i, size);
      var at, offset := Total(k, size), ItemOffset(pos, size, k);
      forall j | 0 <= j < size ensures FetchedByte(out, at, cluster, offset, j) {
        assert FetchedByte(before, at, cluster, offset, j);
      }
    }

    /** fat16_read: nmemb items of `size` bytes from the position of the descriptor, which the code
        does not move. Near the start of the file these are bytes of the file. */
    method ReadItems(firstCluster: nat, pos: Word, size: nat, nmemb: Word, out: array<Byte>) returns (result: int)
      requires Valid() && 0 < size < 0x8000_0000 && nmemb > 0 && Total(nmemb, size) <= out.Length
      requires ItemsOk(firstCluster, pos, size, nmemb)
      modifies clusterStream, fatStream, out
      ensures result == if ItemsReached(firstCluster, pos, size, nmemb) then I32(nmemb) else -EIO
      ensures ItemsReached(firstCluster, pos, size, nmemb) ==> ItemsFetched(out[..], firstCluster, pos, size, nmemb)
      ensures Near(pos, size, nmemb) ==>
                && (ItemsReached(firstCluster, pos, size, nmemb)
                    <==> Walk(Fat(), firstCluster, LinksNeeded(volume, pos, Total(nmemb, size))).Some?)
                && (ItemsReached(firstCluster, pos, size, nmemb) ==>
                      && FromChain(out[..], 0, firstCluster, pos, Total(nmemb, size))
                      && FromFile(out[..], 0, firstCluster, pos, Total(nmemb, size)))
    {
      result := ItemByItem(firstCluster, pos, size, nmemb, out);
      if Near(pos, size, nmemb) {
        NearReached(firstCluster, pos, size, nmemb);
        if ItemsReached(firstCluster, pos, size, nmemb) {
          NearIsChain(out[..], firstCluster, pos, size, nmemb);
          ChainIsFlat(out[..], 0, firstCluster, pos, Total(nmemb, size));
        }
      }
    }

    /** The loop of fat16_read. */
    method ItemByItem(firstCluster: nat, pos: Word, size: nat, nmemb: Word, out: array<Byte>) returns (result: int)
      requires Valid() && 0 < size < 0x8000_0000 && Total(nmemb, size) <= out.Length
      requires ItemsOk(firstCluster, pos, size, nmemb)
      modifies clusterStream, fatStream, out
      ensures result == if ItemsReached(firstCluster, pos, size, nmemb) then I32(nmemb) else -EIO
      ensures ItemsReached(firstCluster, pos, size, nmemb) ==> ItemsFetched(out[..], firstCluster, pos, size, nmemb)
    {
      var offset := I32(pos);
      var at := 0;
      var i := 0;
      while i < nmemb
        invariant 0 <= i <= nmemb && at == Total(i, size) && offset == ItemOffset(pos, size, i)
        invariant ItemsReached(firstCluster, pos, size, i) && ItemsFetched(out[..], firstCluster, pos, size, i)
      {
        TotalMono(i + 1, nmemb, size);
        assert ItemOk(firstCluster, pos, size, i);
        result := ReadItem(firstCluster, pos, offset, at, size, out, i);
        if result < 0 {
          return;
        }
        AllButLast(firstCluster, pos, size, i + 1);
        NextItemOffset(pos, size, i);
        at := at + size;
        offset := I32(U32(offset) + size);
        i := i + 1;
      }
      result := I32(nmemb);
    }

    /** The items end below 2^31, and each starts at a cluster boundary or stays in one cluster. */
    ghost predicate Near(pos: Word, size: nat, n: nat)
      requires volume.sectorsPerCluster > 0
    {
      pos + Total(n, size) <= 0x8000_0000 && forall k :: 0 <= k < n ==> ItemWithin(pos, size, k)
    }

    ghost predicate ItemWithin(pos: Word, size: nat, k: nat)
      requires volume.sectorsPerCluster > 0
    {
      WithinCluster(pos + Total(k, size), size)
    }

    /** Near items are all reached exactly if the last byte of the last one is. */
    lemma {:induction false} NearReached(cluster: int, pos: Word, size: nat, n: nat)
      requires Valid() && size > 0 && Near(pos, size, n)
      ensures ItemsReached(cluster, pos, size, n)
              <==> n == 0 || Walk(Fat(), cluster, LinksNeeded(volume, pos, Total(n, size))).Some?
    {
      if n > 0 {
        NearReached(cluster, pos, size, n - 1);
        NearItemReached(cluster, pos, size, n - 1, n);
        AllButLast(cluster, pos, size, n);
        if n > 1 && Walk(Fat(), cluster, LinksNeeded(volume, pos, Total(n - 1, size))).None? {
          NoLaterItem(volume, Fat(), cluster, pos, Total(n - 1, size), Total(n, size));
        }
      }
    }

    lemma {:induction false} AllButLast(cluster: int, pos: Word, size: nat, n: nat)
      requires volume.sectorsPerCluster > 0 && n > 0
      ensures ItemsReached(cluster, pos, size, n)
              <==> ItemsReached(cluster, pos, size, n - 1) && ItemReached(cluster, pos, size, n - 1)
    {
    }

    lemma {:induction false} NearItemReached(cluster: int, pos: Word, size: nat, k: nat, n: nat)
      requires Valid() && size > 0 && Near(pos, size, n) && k < n
      ensures ItemReached(cluster, pos, size, k)
              <==> Walk(Fat(), cluster, LinksNeeded(volume, pos, Total(k + 1, size))).Some?
    {
      var at := Total(k, size);
      assert ItemWithin(pos, size, k);
      TotalMono(k + 1, n, size);
      WithinClusters(volume, pos + at, size);
      LinksFollowedAreRead(volume, pos + at, size);
    }

    /** Near items are together the bytes of the chain. */
    lemma {:induction false} NearIsChain(out: seq<Byte>, cluster: int, pos: Word, size: nat, n: nat)
      requires Valid() && size > 0 && Total(n, size) <= |out| && Near(pos, size, n)
      requires ItemsFetched(out, cluster, pos, size, n)
      ensures FromChain(out, 0, cluster, pos, Total(n, size))
    {
      if n > 0 {
        var k, at := n - 1, Total(n - 1, size);
        assert ItemWithin(pos, size, k) && ItemFetched(out, cluster, pos, size, k);
        NearIsChain(out, cluster, pos, size, k);
        WithinFetchesChain(out, at, cluster, pos + at, size);
        FromChainExtends(out, cluster, pos, at, size);
      }
    }

    lemma {:induction false} FromChainExtends(out: seq<Byte>, cluster: int, pos: nat, at: nat, size: nat)
      requires Valid() && at + size <= |out|
      requires FromChain(out, 0, cluster, pos, at) && FromChain(out, at, cluster, pos + at, size)
      ensures FromChain(out, 0, cluster, pos, at + size)
    {
      forall i | 0 <= i < at + size ensures ChainByteAt(out, 0, cluster, pos, i) {
        if i >= at {
          assert ChainByteAt(out, at, cluster, pos + at, i - at);
        }
      }
    }

    /** A round fetches its bytes. */
    lemma {:induction false} FetchedRound(before: seq<Byte>, out: seq<Byte>, at: nat, cluster: int, clusterToUse: int, offset: int, n: nat)
      requires Valid() && at + n <= |before| && n <= volume.ClusterBytes()
      requires clusterToUse == ClusterAt(Fat(), cluster, ClustersAhead(volume, offset))
      requires 0 <= RoundStart(clusterToUse, offset) && RoundStart(clusterToUse, offset) + n <= |disk|
      requires out == Splice(before, at, disk[RoundStart(clusterToUse, offset)..RoundStart(clusterToUse, offset) + n])
      ensures Fetched(out, at, cluster, offset, n) && SameBut(before, out, at, n)
    {
      forall i | 0 <= i < n ensures FetchedByte(out, at, cluster, offset, i) {
        assert ReadFrom(volume, Fat(), cluster, offset, i) == RoundStart(clusterToUse, offset) + i;
      }
    }

    /** The rounds after the first are a read of their own. */
    lemma {:induction false} NextRound(cluster: int, offset: Int, total: nat)
      requires Valid() && total > volume.ClusterBytes() && OnDisk(cluster, offset, total) && FitsInt(offset, total)
      ensures var s := volume.ClusterBytes();
              && offset + s < 0x8000_0000
              && OnDisk(cluster, offset + s, total - s) && FitsInt(offset + s, total - s)
              && LinksFollowed(volume, offset + s, total - s) == LinksFollowed(volume, offset, total)
    {
    }

    /** A round and the rounds after it make up the whole read. */
    lemma {:induction false} FetchedJoin(first: seq<Byte>, out: seq<Byte>, at: nat, cluster: int, offset: int, total: nat, s: nat)
      requires Valid() && total > s == volume.ClusterBytes() && at + total <= |first|
      requires Fetched(first, at, cluster, offset, s)
      requires SameBut(first, out, at + s, total - s)
      requires Fetched(out, at + s, cluster, offset + s, total - s)
      ensures Fetched(out, at, cluster, offset, total)
    {
      forall i | 0 <= i < total
        ensures FetchedByte(out, at, cluster, offset, i)
      {
        if i < s {
          assert FetchedByte(first, at, cluster, offset, i);
        } else {
          assert FetchedByte(out, at + s, cluster, offset + s, i - s);
        }
      }
    }

    ghost predicate FetchedByte(out: seq<Byte>, at: nat, cluster: int, offset: int, i: nat)
      requires volume.sectorsPerCluster > 0 && at + i < |out|
    {
      var p := ReadFrom(volume, Fat(), cluster, offset, i);
      0 <= p < |disk| && out[at + i] == disk[p]
    }

    /** out[at..at+total] holds the bytes of the disk at the read positions. */
    ghost predicate Fetched(out: seq<Byte>, at: nat, cluster: int, offset: int, total: nat)
      requires volume.sectorsPerCluster > 0 && at + total <= |out|
    {
      forall i :: 0 <= i < total ==> FetchedByte(out, at, cluster, offset, i)
    }
  }

  /** With either position an entry can be read exactly if its two bytes lie on the disk. */
  lemma {:induction false} EntryReadable(reader: FatReader, reservedSectors: Word, cluster: int)
    requires reader.locate == LocateAsCoded(reservedSectors) || reader.locate == LocateEntry(reservedSectors)
    ensures reader.FatReadable(cluster) <==> 0 <= reader.locate(cluster) && reader.locate(cluster) + 2 <= |reader.disk|
  {
    EntryInSector(reservedSectors, cluster);
  }

  /** For example: the coded reader of a volume with one reserved sector takes the entry of the first
      cluster from byte 2048. */
  lemma {:induction false} FirstEntryOfCodedReader(reader: FatReader)
    requires reader.locate == LocateAsCoded(1) && |reader.disk| >= 2050
    ensures reader.Entry(2) == reader.disk[2048] + 0x100 * (reader.disk[2049] as int)
  {
    EntryReadable(reader, 1, 2);
    FirstEntryMissed();
  }

  /** Only bytes at .. at+n-1 may differ. */
  ghost predicate SameBut(before: seq<Byte>, after: seq<Byte>, at: nat, n: nat)
  {
    |after| == |before| && forall k :: 0 <= k < |before| && !(at <= k < at + n) ==> after[k] == before[k]
  }

  lemma {:induction false} SameButJoin(a: seq<Byte>, b: seq<Byte>, c: seq<Byte>, at: nat, n: nat, total: nat)
    requires n <= total && SameBut(a, b, at, n) && SameBut(b, c, at + n, total - n)
    ensures SameBut(a, c, at, total)
  {
  }

  /** The offset of item k of a read from a position, which passes through `int` with every item. */
  function ItemOffset(pos: Word, size: nat, k: nat): Int
  {
    I32(pos + Total(k, size))
  }

  /** The bytes of n items. */
  function Total(n: nat, size: nat): (t: nat)
    ensures n > 0 && size > 0 ==> t > 0
  {
    if n == 0 then 0 else Total(n - 1, size) + size
  }

  lemma {:induction false} TotalIsProduct(n: nat, size: nat)
    ensures Total(n, size) == n * size
  {
    if n > 0 {
      TotalIsProduct(n - 1, size);
      assert n * size == (n - 1) * size + size;
    }
  }

  lemma {:induction false} TotalMono(i: nat, n: nat, size: nat)
    requires i <= n
    ensures Total(i, size) <= Total(n, size)
  {
    if i < n {
      TotalMono(i, n - 1, size);
    }
  }

  /** Where the end of some items cannot be reached, neither can the end of all of them. */
  lemma {:induction false} NoLaterItem(v: Volume, fat: int -> int, c: int, pos: nat, some: nat, all: nat)
    requires v.sectorsPerCluster > 0 && 0 < some <= all
    requires Walk(fat, c, LinksNeeded(v, pos, some)).None?
    ensures Walk(fat, c, LinksNeeded(v, pos, all)).None?
  {
    QuotMono(pos + some - 1, pos + all - 1, v.ClusterBytes());
    StoppedWalk(fat, c, LinksNeeded(v, pos, some), LinksNeeded(v, pos, all));
  }

  lemma {:induction false} StoppedEarly(v: Volume, fat: int -> int, c: int, offset: int, total: nat)
    requires v.sectorsPerCluster > 0 && Walk(fat, c, ClustersAhead(v, offset)).None?
    ensures Walk(fat, c, LinksFollowed(v, offset, total)).None?
  {
    MoreLinksLater(v, offset, total);
    StoppedWalk(fat, c, ClustersAhead(v, offset), LinksFollowed(v, offset, total));
  }

  lemma {:induction false} NextItemOffset(pos: Word, size: nat, k: nat)
    ensures I32(U32(ItemOffset(pos, size, k)) + size) == ItemOffset(pos, size, k + 1)
  {
    ConvertedSum(pos + Total(k, size), size);
  }

  lemma {:induction false} PlaceInChain(v: Volume, k: nat, from: nat, total: nat, offset: int)
    requires v.sectorsPerCluster > 0 && 0 < total && from + total <= v.ClusterBytes()
    requires offset == k * v.ClusterBytes() + from
    ensures offset >= 0 && total <= v.ClusterBytes()
    ensures ClustersAhead(v, offset) == k && InCluster(v, offset) == from && LinksFollowed(v, offset, total) == k
  {
    QuotOfBlock(offset, v.ClusterBytes(), k);
  }

  /** One more link of a walk of k links, or its end. */
  lemma {:induction false} LinkFollowed(fat: int -> int, c: int, i: nat, d: int, k: nat)
    requires Walk(fat, c, i) == Some(d) && i < k
    ensures Walk(fat, c, i + 1) == if IsStop(fat(d)) then None else Some(fat(d))
    ensures IsStop(fat(d)) ==> Walk(fat, c, k).None?
  {
    if IsStop(fat(d)) {
      StoppedWalk(fat, c, i + 1, k);
    }
  }

  lemma {:induction false} StoppedWalk(fat: int -> int, c: int, j: nat, k: nat)
    requires j <= k && Walk(fat, c, j).None?
    ensures Walk(fat, c, k).None?
  {
    if j < k {
      StoppedWalk(fat, c, j, k - 1);
    }
  }
}
