/** Cluster chains as values: the walk over an arbitrary FAT entry function, where each byte of a
    chain stands on the disk, and which bytes the reader of fat16.c fetches. */
module FatChain {
  import opened Words
  import opened Options
  import opened Arith
  import opened DiskStream

  /** The entries at which the walk gives up. */
  predicate IsStop(entry: int)
  {
    entry == 0xFF8 || entry == 0xFFF || entry == 0xFF7 || entry == 0xFF0 || entry == 0xFF6 || entry == 0
  }

  /** The cluster k links after c, if no stop value is met on the way. */
  function Walk(fat: int -> int, c: int, k: nat): Option<int>
  {
    if k == 0 then Some(c)
    else match Walk(fat, c, k - 1)
         case None => None
         case Some(d) => if IsStop(fat(d)) then None else Some(fat(d))
  }

  /** Restarting a walk from its j-th cluster is continuing it. */
  lemma {:induction false} WalkFromMiddle(fat: int -> int, c: int, j: nat, k: nat)
    ensures Walk(fat, c, j + k) == match Walk(fat, c, j) case None => None case Some(d) => Walk(fat, d, k)
  {
    if k > 0 {
      WalkFromMiddle(fat, c, j, k - 1);
      assert j + k - 1 == j + (k - 1);
    }
  }

  /** The entries that end a chain in FAT16: free, reserved, bad, and the end marks 0xFFF8 to 0xFFFF. */
  predicate EndsChain(entry: int)
  {
    entry == 0 || 0xFFF0 <= entry <= 0xFFFF
  }

  /** The code compares with the 12-bit counterparts of these values. */
  lemma {:induction false} StopExactly(entry: int)
    requires 0 <= entry <= 0xFFFF
    ensures (IsStop(entry) <==> EndsChain(entry))
            <==> entry == 0 || (entry < 0xFFF0 && entry !in {0xFF0, 0xFF6, 0xFF7, 0xFF8, 0xFFF})
    ensures entry >= 0xFFF0 ==> !IsStop(entry)
  {
  }

  /** The walk as FAT16 has it. */
  function TrueWalk(fat: int -> int, c: int, k: nat): Option<int>
  {
    if k == 0 then Some(c)
    else match TrueWalk(fat, c, k - 1)
         case None => None
         case Some(d) => if EndsChain(fat(d)) then None else Some(fat(d))
  }

  /** The j-th entry of the chain, where there is one, is judged alike. */
  predicate JudgedAlike(fat: int -> int, c: int, j: nat)
  {
    match TrueWalk(fat, c, j) case None => true case Some(d) => IsStop(fat(d)) <==> EndsChain(fat(d))
  }

  predicate SameWalk(fat: int -> int, c: int, k: nat)
  {
    Walk(fat, c, k) == TrueWalk(fat, c, k)
  }

  /** The walk follows the chain of the table as far as k links exactly when every entry of the chain
      before that is judged alike. */
  lemma {:induction false} WalkIsTrueExactly(fat: int -> int, c: int, k: nat)
    ensures (forall i :: 0 <= i <= k ==> SameWalk(fat, c, i))
            <==> (forall j :: 0 <= j < k ==> JudgedAlike(fat, c, j))
  {
    if k > 0 {
      WalkIsTrueExactly(fat, c, k - 1);
      assert SameWalk(fat, c, k - 1) ==> (SameWalk(fat, c, k) <==> JudgedAlike(fat, c, k - 1));
    } else {
      assert SameWalk(fat, c, 0);
    }
  }

  /** For example: the first cluster of a file is its last, and the walk goes on to cluster 0xFFF8. */
  lemma {:induction false} EndMarkFollowed()
    ensures var fat := (c: int) => if c == 2 then 0xFFF8 else 0;
            Walk(fat, 2, 1) == Some(0xFFF8) && TrueWalk(fat, 2, 1) == None
  {
    var fat := (c: int) => if c == 2 then 0xFFF8 else 0;
    assert Walk(fat, 2, 0) == TrueWalk(fat, 2, 0) == Some(2);
  }

  /** Where the data of clusters stands: sectors per cluster and the sector of cluster 2. */
  datatype Volume = Volume(sectorsPerCluster: nat, endingSector: int)
  {
    function ClusterBytes(): int
    {
      sectorsPerCluster * SECTOR
    }

    function ClusterStart(c: int): int
    {
      (endingSector + (c - 2) * sectorsPerCluster) * SECTOR
    }
  }

  /** The k-th cluster of a chain, or -1 past its end. */
  function ClusterAt(fat: int -> int, c: int, k: nat): int
  {
    match Walk(fat, c, k) case None => -1 case Some(d) => d
  }

  /** Where byte x of the concatenated chain stands on the disk. */
  function ChainPosition(v: Volume, fat: int -> int, c: int, x: nat): int
    requires v.sectorsPerCluster > 0
  {
    v.ClusterStart(ClusterAt(fat, c, Quot(x, v.ClusterBytes()))) + Rem(x, v.ClusterBytes())
  }

  /** Where the reader takes byte i of a read at `offset` from: it reads whole cluster sizes, each
      from the in-cluster offset of the start of the read. */
  function ReadPosition(v: Volume, fat: int -> int, c: int, offset: nat, i: nat): int
    requires v.sectorsPerCluster > 0
  {
    var s := v.ClusterBytes();
    v.ClusterStart(ClusterAt(fat, c, Quot(offset, s) + Quot(i, s))) + Rem(offset, s) + Rem(i, s)
  }

  // ----- offsets of either sign, as the reader takes them -----

  /** The links followed to the cluster of an offset: for a negative one the quotient of C is not
      positive, and none is. */
  function ClustersAhead(v: Volume, offset: int): nat
    requires v.sectorsPerCluster > 0
  {
    if offset < 0 then 0 else Quot(offset, v.ClusterBytes())
  }

  /** The offset inside that cluster: C's remainder, which has the sign of the offset. */
  function InCluster(v: Volume, offset: int): int
    requires v.sectorsPerCluster > 0
  {
    if offset < 0 then -(Rem(-offset, v.ClusterBytes()) as int) else Rem(offset, v.ClusterBytes())
  }

  /** Where the reader, round by round, takes byte i of a read at `offset` from. */
  function ReadFrom(v: Volume, fat: int -> int, c: int, offset: int, i: nat): int
    requires v.sectorsPerCluster > 0
    decreases i
  {
    if i < v.ClusterBytes() then v.ClusterStart(ClusterAt(fat, c, ClustersAhead(v, offset))) + InCluster(v, offset) + i
    else ReadFrom(v, fat, c, offset + v.ClusterBytes(), i - v.ClusterBytes())
  }

  /** The links followed in the last round. */
  function LinksFollowed(v: Volume, offset: int, total: nat): nat
    requires v.sectorsPerCluster > 0
    decreases total
  {
    if total <= v.ClusterBytes() then ClustersAhead(v, offset)
    else LinksFollowed(v, offset + v.ClusterBytes(), total - v.ClusterBytes())
  }

  lemma {:induction false} MoreLinksLater(v: Volume, offset: int, total: nat)
    requires v.sectorsPerCluster > 0
    ensures ClustersAhead(v, offset) <= LinksFollowed(v, offset, total)
    decreases total
  {
    if total > v.ClusterBytes() {
      MoreLinksLater(v, offset + v.ClusterBytes(), total - v.ClusterBytes());
      if offset >= 0 {
        QuotMono(offset, offset + v.ClusterBytes(), v.ClusterBytes());
      }
    }
  }

  /** From an offset that is not negative these are the read positions and links above. */
  lemma {:induction false} ReadFromIsReadPosition(v: Volume, fat: int -> int, c: int, offset: nat, i: nat)
    requires v.sectorsPerCluster > 0
    ensures ReadFrom(v, fat, c, offset, i) == ReadPosition(v, fat, c, offset, i)
    decreases i
  {
    var s := v.ClusterBytes();
    if i >= s {
      ReadFromIsReadPosition(v, fat, c, offset + s, i - s);
      assert Quot(offset + s, s) == Quot(offset, s) + 1 && Rem(offset + s, s) == Rem(offset, s);
    }
  }

  lemma {:induction false} LinksFollowedAreRead(v: Volume, offset: nat, total: nat)
    requires v.sectorsPerCluster > 0
    ensures LinksFollowed(v, offset, total) == LinksRead(v, offset, total)
    decreases total
  {
    var s := v.ClusterBytes();
    if total > s {
      LinksFollowedAreRead(v, offset + s, total - s);
      assert Quot(offset + s, s) == Quot(offset, s) + 1;
    }
  }

  /** The position of a file is unsigned, the offset made of it is not. Where the chain does not reach
      a position, a read of up to a cluster there fails exactly if the position is below 2^31; beyond,
      it delivers bytes at the first cluster. */
  lemma {:induction false} FarReadExactly(v: Volume, fat: int -> int, c: int, pos: Word, size: nat)
    requires v.sectorsPerCluster > 0 && size <= v.ClusterBytes()
    requires Walk(fat, c, Quot(pos, v.ClusterBytes())).None?
    ensures Walk(fat, c, LinksFollowed(v, I32(pos), size)).None? <==> pos < 0x8000_0000
    ensures pos >= 0x8000_0000 ==>
              forall i :: 0 <= i < size ==>
                ReadFrom(v, fat, c, I32(pos), i) == v.ClusterStart(c) + InCluster(v, I32(pos)) + i
  {
    FarOffset(pos);
    assert Walk(fat, c, 0) == Some(c);
  }

  lemma FarOffset(pos: Word)
    ensures I32(pos) == if pos < 0x8000_0000 then pos else pos - WORD_RANGE
  {
  }

  /** The links the reader follows for a read. */
  function LinksRead(v: Volume, offset: nat, total: nat): nat
    requires v.sectorsPerCluster > 0
  {
    Quot(offset, v.ClusterBytes()) + (if total == 0 then 0 else Quot(total - 1, v.ClusterBytes()))
  }

  /** The links that lead to the last byte of a read. */
  function LinksNeeded(v: Volume, offset: nat, total: nat): nat
    requires v.sectorsPerCluster > 0 && total > 0
  {
    Quot(offset + total - 1, v.ClusterBytes())
  }

  /** The data of cluster 2 starts where the root directory ends. */
  lemma {:induction false} FirstClusterStart(v: Volume)
    ensures v.ClusterStart(2) == v.endingSector * 512 && v.ClusterBytes() == v.sectorsPerCluster * 512
  {
  }

  lemma {:induction false} NextClusterStart(v: Volume, c: int, d: int)
    requires v.sectorsPerCluster > 0
    ensures v.ClusterStart(d) == v.ClusterStart(c) + v.ClusterBytes() <==> d == c + 1
  {
    var s := v.sectorsPerCluster;
    assert (d - 2) * s - (c - 2) * s == (d - c) * s;
    if d > c + 1 {
      MulMono(s, 2, d - c);
    } else if d < c + 1 {
      MulMono(s, d - c, 0);
    }
  }

  /** From a cluster boundary, or inside one cluster, the reader takes every byte from where the
      chain has it ... */
  lemma {:induction false} ReadPositionIsChainPosition(v: Volume, fat: int -> int, c: int, offset: nat, i: nat)
    requires v.sectorsPerCluster > 0
    requires Rem(offset, v.ClusterBytes()) + Rem(i, v.ClusterBytes()) < v.ClusterBytes()
    ensures ReadPosition(v, fat, c, offset, i) == ChainPosition(v, fat, c, offset + i)
  {
    QuotSum(offset, i, v.ClusterBytes());
  }

  lemma {:induction false} PositionsPastCluster(v: Volume, fat: int -> int, c: int, offset: nat, i: nat)
    requires v.sectorsPerCluster > 0
    requires Rem(offset, v.ClusterBytes()) + Rem(i, v.ClusterBytes()) >= v.ClusterBytes()
    ensures var s := v.ClusterBytes();
            var k, o := Quot(offset, s) + Quot(i, s), Rem(offset, s) + Rem(i, s);
            && ReadPosition(v, fat, c, offset, i) == v.ClusterStart(ClusterAt(fat, c, k)) + o
            && ChainPosition(v, fat, c, offset + i) == v.ClusterStart(ClusterAt(fat, c, k + 1)) + o - s
  {
    var s := v.ClusterBytes();
    var k, o := Quot(offset, s) + Quot(i, s), Rem(offset, s) + Rem(i, s);
    QuotSum(offset, i, s);
    assert Quot(offset + i, s) == k + 1 && Rem(offset + i, s) == o - s;
  }

  /** ... and behind the end of a cluster exactly when the next cluster of the chain is the next
      one on the disk. */
  lemma {:induction false} ReadPositionPastCluster(v: Volume, fat: int -> int, c: int, offset: nat, i: nat)
    requires v.sectorsPerCluster > 0
    requires Rem(offset, v.ClusterBytes()) + Rem(i, v.ClusterBytes()) >= v.ClusterBytes()
    ensures var k := Quot(offset, v.ClusterBytes()) + Quot(i, v.ClusterBytes());
            ReadPosition(v, fat, c, offset, i) == ChainPosition(v, fat, c, offset + i)
            <==> ClusterAt(fat, c, k + 1) == ClusterAt(fat, c, k) + 1
  {
    var k := Quot(offset, v.ClusterBytes()) + Quot(i, v.ClusterBytes());
    PositionsPastCluster(v, fat, c, offset, i);
    NextClusterStart(v, ClusterAt(fat, c, k), ClusterAt(fat, c, k + 1));
  }

  /** Byte i of the read lies behind the end of the cluster that its round of reading starts in. */
  predicate Crosses(v: Volume, offset: nat, i: nat)
    requires v.sectorsPerCluster > 0
  {
    Rem(offset, v.ClusterBytes()) + Rem(i, v.ClusterBytes()) >= v.ClusterBytes()
  }

  /** Every cluster end that the read crosses is followed by the neighbouring cluster. */
  ghost predicate ContiguousWhereCrossed(v: Volume, fat: int -> int, c: int, offset: nat, total: nat)
    requires v.sectorsPerCluster > 0
  {
    forall i :: 0 <= i < total && Crosses(v, offset, i) ==>
      var k := Quot(offset, v.ClusterBytes()) + Quot(i, v.ClusterBytes());
      ClusterAt(fat, c, k + 1) == ClusterAt(fat, c, k) + 1
  }

  /** Exactly when a read takes all of its bytes from their places in the chain. */
  lemma {:induction false} ReadIsChainExactly(v: Volume, fat: int -> int, c: int, offset: nat, total: nat)
    requires v.sectorsPerCluster > 0
    ensures (forall i :: 0 <= i < total ==> ReadPosition(v, fat, c, offset, i) == ChainPosition(v, fat, c, offset + i))
            <==> ContiguousWhereCrossed(v, fat, c, offset, total)
  {
    forall i | 0 <= i < total
      ensures ReadPosition(v, fat, c, offset, i) == ChainPosition(v, fat, c, offset + i)
              <==> (Crosses(v, offset, i) ==>
                      var k := Quot(offset, v.ClusterBytes()) + Quot(i, v.ClusterBytes());
                      ClusterAt(fat, c, k + 1) == ClusterAt(fat, c, k) + 1)
    {
      if Crosses(v, offset, i) {
        ReadPositionPastCluster(v, fat, c, offset, i);
      } else {
        ReadPositionIsChainPosition(v, fat, c, offset, i);
      }
    }
  }

  /** For example: two sectors to a cluster, cluster 2 followed by cluster 9, and a read of two
      sectors from the middle of cluster 2. */
  lemma {:induction false} UnalignedReadMisses()
    ensures var v, fat := Volume(2, 100), (c: int) => if c == 2 then 9 else 0xFFF;
            && !ContiguousWhereCrossed(v, fat, 2, 512, 1024)
            && ReadPosition(v, fat, 2, 512, 512) != ChainPosition(v, fat, 2, 512 + 512)
  {
    var v, fat := Volume(2, 100), (c: int) => if c == 2 then 9 else 0xFFF;
    assert v.ClusterBytes() == 1024 && Rem(512, 1024) == 512 && Quot(512, 1024) == 0;
    assert Walk(fat, 2, 1) == Some(9);
    assert Crosses(v, 512, 512);
    ReadPositionPastCluster(v, fat, 2, 512, 512);
  }

  /** A read from a cluster boundary, or inside one cluster, crosses no cluster end and follows just
      the links to its last byte. */
  lemma {:induction false} WithinClusters(v: Volume, offset: nat, total: nat)
    requires v.sectorsPerCluster > 0 && total > 0
    requires Rem(offset, v.ClusterBytes()) == 0 || Rem(offset, v.ClusterBytes()) + total <= v.ClusterBytes()
    ensures forall i :: 0 <= i < total ==> !Crosses(v, offset, i)
    ensures LinksRead(v, offset, total) == LinksNeeded(v, offset, total)
  {
    QuotSum(offset, total - 1, v.ClusterBytes());
  }

  // ----- the concatenated chain as one flat byte sequence -----

  /** The bytes of one cluster. */
  function ClusterData<T>(v: Volume, disk: seq<T>, c: int): (d: seq<T>)
    requires 0 <= v.ClusterStart(c) && v.ClusterStart(c) + v.ClusterBytes() <= |disk|
    ensures |d| == v.ClusterBytes()
  {
    disk[v.ClusterStart(c)..v.ClusterStart(c) + v.ClusterBytes()]
  }

  /** The first n clusters of the chain exist and lie on the disk. */
  ghost predicate ChainOnDisk(v: Volume, fat: int -> int, c: int, n: nat, size: nat)
  {
    forall k :: 0 <= k < n ==>
      && Walk(fat, c, k).Some?
      && 0 <= v.ClusterStart(ClusterAt(fat, c, k)) && v.ClusterStart(ClusterAt(fat, c, k)) + v.ClusterBytes() <= size
  }

  /** Their bytes, one cluster after the other. */
  ghost function Flat<T>(v: Volume, fat: int -> int, disk: seq<T>, c: int, n: nat): (f: seq<T>)
    requires ChainOnDisk(v, fat, c, n, |disk|)
    ensures |f| == n * v.ClusterBytes()
  {
    if n == 0 then []
    else
      assert (n - 1) * v.ClusterBytes() + v.ClusterBytes() == n * v.ClusterBytes();
      Flat(v, fat, disk, c, n - 1) + ClusterData(v, disk, ClusterAt(fat, c, n - 1))
  }

  /** Byte x of the flat sequence is the one at its chain position. */
  lemma {:induction false} FlatAt<T>(v: Volume, fat: int -> int, disk: seq<T>, c: int, n: nat, x: nat)
    requires v.sectorsPerCluster > 0 && ChainOnDisk(v, fat, c, n, |disk|) && x < n * v.ClusterBytes()
    ensures 0 <= ChainPosition(v, fat, c, x) < |disk|
    ensures Flat(v, fat, disk, c, n)[x] == disk[ChainPosition(v, fat, c, x)]
  {
    var s := v.ClusterBytes();
    assert (n - 1) * s + s == n * s;
    if x < (n - 1) * s {
      FlatAt(v, fat, disk, c, n - 1, x);
    } else {
      QuotOfBlock(x, s, n - 1);
    }
  }

  lemma {:induction false} QuotBound(x: nat, s: nat)
    requires s > 0
    ensures Quot(x, s) * s <= x < (Quot(x, s) + 1) * s
  {
    if x >= s {
      QuotBound(x - s, s);
      assert Quot(x, s) * s == Quot(x - s, s) * s + s;
      assert (Quot(x, s) + 1) * s == (Quot(x - s, s) + 1) * s + s;
    }
  }

  lemma {:induction false} QuotMono(x: nat, y: nat, s: nat)
    requires s > 0 && x <= y
    ensures Quot(x, s) <= Quot(y, s)
  {
    if x >= s {
      QuotMono(x - s, y - s, s);
    }
  }

  lemma {:induction false} QuotOfBlock(x: nat, s: nat, k: nat)
    requires s > 0 && k * s <= x < k * s + s
    ensures Quot(x, s) == k && Rem(x, s) == x - k * s
  {
    if k > 0 {
      assert k * s == (k - 1) * s + s;
      assert (k - 1) * s >= 0;
      QuotOfBlock(x - s, s, k - 1);
    }
  }
}
