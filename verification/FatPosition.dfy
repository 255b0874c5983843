/** fat16_get_fat_entry multiplies where it should add: for which volumes and clusters it still comes
    to the right entry. */
module FatPosition {
  import opened Words
  import opened DiskStream
  import opened Fat16

  /** The two positions agree for no 16-bit sizes and cluster numbers but zero and zero. */
  lemma {:induction false} CodedPositionExactly(reserved: Word, cluster: int)
    requires reserved < 0x1_0000 && 0 <= cluster < 0x1_0000
    ensures CodedPosition(reserved, cluster) == EntryPosition(reserved, cluster) <==> reserved == 0 && cluster == 0
    ensures EntryPosition(reserved, cluster) == reserved * 512 + cluster * 2
    ensures CodedPosition(reserved, cluster) == U32((reserved * 512) * (cluster * 2))
  {
    var p := reserved * cluster;
    assert (reserved * SECTOR) * (cluster * 2) == 1024 * p;
    var n := 1024 * p / WORD_RANGE;
    assert CodedPosition(reserved, cluster) == U32(1024 * p) == 1024 * p - WORD_RANGE * n;
    if CodedPosition(reserved, cluster) == EntryPosition(reserved, cluster) {
      NoCollision(reserved, cluster, n);
    }
  }

  /** The product meets the sum, up to n turns, only at zero: the cluster is a multiple 256 d, the
      reserved sectors are 512 k - d, and what is left is a congruence in d and the small k. */
  lemma {:induction false} NoCollision(r: nat, c: nat, n: int)
    requires r < 0x1_0000 && c < 0x1_0000 && 1024 * (r * c) == 512 * r + 2 * c + WORD_RANGE * n
    ensures r == 0 && c == 0
  {
    var d := 2 * (r * c) - r - 0x80_0000 * n;
    assert c == 256 * d;
    assert r * c == 256 * (r * d);
    var k := r * d - 0x4000 * n;
    assert r + d == 512 * k;
    Congruence(r, d, k, n);
  }

  /** For k from 1 to 128 there is no such d below 256. */
  lemma {:induction false} Congruence(r: int, d: nat, k: int, n: int)
    requires r + d == 512 * k && k == r * d - 0x4000 * n && d < 256
    ensures !(1 <= k <= 128)
  {
    var kd, dd, ddd, kdd, dn := k * d, d * d, d * (d * d), d * (k * d), d * n;
    var j := kd - 32 * n;
    SquareIs(r, d, k);
    assert dd + k == 512 * j;
    CubeIs(d, k, n);
    assert ddd == 512 * kdd - kd - 0x4000 * dn;
    assert j + ddd == 32 * (16 * kdd - n - 512 * dn);
    NoMeeting(d, j, k, 16 * kdd - n - 512 * dn);
  }

  lemma {:induction false} NoMeeting(d: nat, j: int, k: int, q: int)
    requires d < 256 && d * d + k == 512 * j && j + d * (d * d) == 32 * q
    ensures !(1 <= k <= 128)
  {
    if 1 <= k <= 128 {
      assert InRow(d, j);
      NoneBelow256(d, j);
      MultipleOf32(j + d * (d * d), q);
    }
  }

  lemma {:induction false} MultipleOf32(x: int, q: int)
    requires x == 32 * q
    ensures x % 32 == 0
  {
  }

  lemma {:induction false} SquareIs(r: int, d: nat, k: int)
    requires r + d == 512 * k
    ensures r * d == 512 * (k * d) - d * d
  {
    assert r * d == (512 * k - d) * d;
  }

  lemma {:induction false} CubeIs(d: nat, k: int, n: int)
    requires d * d == 512 * (k * d) - k - 0x4000 * n
    ensures d * (d * d) == 512 * (d * (k * d)) - k * d - 0x4000 * (d * n)
  {
    var kd := k * d;
    assert d * (d * d) == d * (512 * kd - k - 0x4000 * n);
  }

  /** From d onwards, n numbers d with square sq and cube cu: the next multiple 512 j of 512 is more
      than 128 above the square, or j and the cube do not add up to a multiple of 32. */
  predicate Clear(d: nat, sq: nat, cu: nat, j: nat, n: nat)
    decreases n
  {
    n == 0 ||
    ((sq + 128 < 512 * j || (j + cu) % 32 != 0) &&
     Clear(d + 1, sq + 2 * d + 1, cu + 3 * sq + 3 * d + 1, if sq + 2 * d + 1 < 512 * j then j else j + 1, n - 1))
  }

  /** 512 j is the next multiple of 512 above the square of e. */
  predicate InRow(e: nat, j: nat)
  {
    512 * (j - 1) <= e * e < 512 * j
  }

  predicate IsClear(e: nat, j: nat)
  {
    e * e + 128 < 512 * j || (j + e * (e * e)) % 32 != 0
  }

  /** sq and cu are square and cube of d, and 512 j the next multiple of 512 above the square. */
  predicate Tracks(d: nat, sq: nat, cu: nat, j: nat)
  {
    sq == d * d && cu == d * sq && 512 * (j - 1) <= sq < 512 * j
  }

  lemma {:induction false} ClearAt(d: nat, sq: nat, cu: nat, j: nat, n: nat, e: nat, i: nat)
    requires Clear(d, sq, cu, j, n) && d <= e < d + n && d + n <= 256
    requires Tracks(d, sq, cu, j) && InRow(e, i)
    ensures IsClear(e, i)
    decreases n
  {
    if d < e {
      NextTracked(d, sq, cu, j);
      ClearAt(d + 1, sq + 2 * d + 1, cu + 3 * sq + 3 * d + 1, if sq + 2 * d + 1 < 512 * j then j else j + 1, n - 1, e, i);
    } else {
      ClearHere(d, sq, cu, j, i);
    }
  }

  lemma {:induction false} ClearHere(d: nat, sq: nat, cu: nat, j: nat, i: nat)
    requires Tracks(d, sq, cu, j) && InRow(d, i) && (sq + 128 < 512 * j || (j + cu) % 32 != 0)
    ensures IsClear(d, i)
  {
    assert i == j;
  }

  lemma {:induction false} NextTracked(d: nat, sq: nat, cu: nat, j: nat)
    requires Tracks(d, sq, cu, j) && d < 255
    ensures Tracks(d + 1, sq + 2 * d + 1, cu + 3 * sq + 3 * d + 1, if sq + 2 * d + 1 < 512 * j then j else j + 1)
  {
    NextCube(d, sq, cu);
  }

  lemma {:induction false} NextCube(d: nat, sq: nat, cu: nat)
    requires sq == d * d && cu == d * sq
    ensures sq + 2 * d + 1 == (d + 1) * (d + 1)
    ensures cu + 3 * sq + 3 * d + 1 == (d + 1) * (sq + 2 * d + 1)
  {
  }

  lemma {:induction false} From0(e: nat, j: nat)
    requires e < 16 && InRow(e, j)
    ensures IsClear(e, j)
  {
    if e < 8 { ClearAt(0, 0, 0, 1, 8, e, j); }
    else { ClearAt(8, 64, 512, 1, 8, e, j); }
  }

  lemma {:induction false} From16(e: nat, j: nat)
    requires 16 <= e < 32 && InRow(e, j)
    ensures IsClear(e, j)
  {
    if e < 24 { ClearAt(16, 256, 4096, 1, 8, e, j); }
    else { ClearAt(24, 576, 13824, 2, 8, e, j); }
  }

  lemma {:induction false} From32(e: nat, j: nat)
    requires 32 <= e < 48 && InRow(e, j)
    ensures IsClear(e, j)
  {
    if e < 40 { ClearAt(32, 1024, 32768, 3, 8, e, j); }
    else { ClearAt(40, 1600, 64000, 4, 8, e, j); }
  }

  lemma {:induction false} From48(e: nat, j: nat)
    requires 48 <= e < 64 && InRow(e, j)
    ensures IsClear(e, j)
  {
    if e < 56 { ClearAt(48, 2304, 110592, 5, 8, e, j); }
    else { ClearAt(56, 3136, 175616, 7, 8, e, j); }
  }

  lemma {:induction false} From64(e: nat, j: nat)
    requires 64 <= e < 80 && InRow(e, j)
    ensures IsClear(e, j)
  {
    if e < 72 { ClearAt(64, 4096, 262144, 9, 8, e, j); }
    else { ClearAt(72, 5184, 373248, 11, 8, e, j); }
  }

  lemma {:induction false} From80(e: nat, j: nat)
    requires 80 <= e < 96 && InRow(e, j)
    ensures IsClear(e, j)
  {
    if e < 88 { ClearAt(80, 6400, 512000, 13, 8, e, j); }
    else { ClearAt(88, 7744, 681472, 16, 8, e, j); }
  }

  lemma {:induction false} From96(e: nat, j: nat)
    requires 96 <= e < 112 && InRow(e, j)
    ensures IsClear(e, j)
  {
    if e < 104 { ClearAt(96, 9216, 884736, 19, 8, e, j); }
    else { ClearAt(104, 10816, 1124864, 22, 8, e, j); }
  }

  lemma {:induction false} From112(e: nat, j: nat)
    requires 112 <= e < 128 && InRow(e, j)
    ensures IsClear(e, j)
  {
    if e < 120 { ClearAt(112, 12544, 1404928, 25, 8, e, j); }
    else { ClearAt(120, 14400, 1728000, 29, 8, e, j); }
  }

  lemma {:induction false} From128(e: nat, j: nat)
    requires 128 <= e < 144 && InRow(e, j)
    ensures IsClear(e, j)
  {
    if e < 136 { ClearAt(128, 16384, 2097152, 33, 8, e, j); }
    else { ClearAt(136, 18496, 2515456, 37, 8, e, j); }
  }

  lemma {:induction false} From144(e: nat, j: nat)
    requires 144 <= e < 160 && InRow(e, j)
    ensures IsClear(e, j)
  {
    if e < 152 { ClearAt(144, 20736, 2985984, 41, 8, e, j); }
    else { ClearAt(152, 23104, 3511808, 46, 8, e, j); }
  }

  lemma {:induction false} From160(e: nat, j: nat)
    requires 160 <= e < 176 && InRow(e, j)
    ensures IsClear(e, j)
  {
    if e < 168 { ClearAt(160, 25600, 4096000, 51, 8, e, j); }
    else { ClearAt(168, 28224, 4741632, 56, 8, e, j); }
  }

  lemma {:induction false} From176(e: nat, j: nat)
    requires 176 <= e < 192 && InRow(e, j)
    ensures IsClear(e, j)
  {
    if e < 184 { ClearAt(176, 30976, 5451776, 61, 8, e, j); }
    else { ClearAt(184, 33856, 6229504, 67, 8, e, j); }
  }

  lemma {:induction false} From192(e: nat, j: nat)
    requires 192 <= e < 208 && InRow(e, j)
    ensures IsClear(e, j)
  {
    if e < 200 { ClearAt(192, 36864, 7077888, 73, 8, e, j); }
    else { ClearAt(200, 40000, 8000000, 79, 8, e, j); }
  }

  lemma {:induction false} From208(e: nat, j: nat)
    requires 208 <= e < 224 && InRow(e, j)
    ensures IsClear(e, j)
  {
    if e < 216 { ClearAt(208, 43264, 8998912, 85, 8, e, j); }
    else { ClearAt(216, 46656, 10077696, 92, 8, e, j); }
  }

  lemma {:induction false} From224(e: nat, j: nat)
    requires 224 <= e < 240 && InRow(e, j)
    ensures IsClear(e, j)
  {
    if e < 232 { ClearAt(224, 50176, 11239424, 99, 8, e, j); }
    else { ClearAt(232, 53824, 12487168, 106, 8, e, j); }
  }

  lemma {:induction false} From240(e: nat, j: nat)
    requires 240 <= e < 256 && InRow(e, j)
    ensures IsClear(e, j)
  {
    if e < 248 { ClearAt(240, 57600, 13824000, 113, 8, e, j); }
    else { ClearAt(248, 61504, 15252992, 121, 8, e, j); }
  }

  lemma {:induction false} NoneBelow256(e: nat, j: nat)
    requires e < 256 && InRow(e, j)
    ensures IsClear(e, j)
  {
    if e < 16 { From0(e, j); }
    else if e < 32 { From16(e, j); }
    else if e < 48 { From32(e, j); }
    else if e < 64 { From48(e, j); }
    else if e < 80 { From64(e, j); }
    else if e < 96 { From80(e, j); }
    else if e < 112 { From96(e, j); }
    else if e < 128 { From112(e, j); }
    else if e < 144 { From128(e, j); }
    else if e < 160 { From144(e, j); }
    else if e < 176 { From160(e, j); }
    else if e < 192 { From176(e, j); }
    else if e < 208 { From192(e, j); }
    else if e < 224 { From208(e, j); }
    else if e < 240 { From224(e, j); }
    else { From240(e, j); }
  }
}
