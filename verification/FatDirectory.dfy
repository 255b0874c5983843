/** Directory entries of fat16.c: counting them on the disk, decoding 8.3 names, and looking a
    name up without regard to case. */
module FatDirectory {
  import opened Words
  import opened DiskStream

  const ITEM_BYTES := 32
  const DELETED := 0xE5
  const NAME_BYTES := 8
  const EXT_BYTES := 3

  // ----- counting -----

  /** The first byte of entry i of a directory that starts at a sector. */
  function FirstByte(disk: seq<Byte>, sector: nat, i: nat): Byte
    requires sector * SECTOR + i * ITEM_BYTES < |disk|
  {
    disk[sector * SECTOR + i * ITEM_BYTES]
  }

  /** Entry number `end` is the first one that is marked as the end, and all of it is on the disk. */
  ghost predicate EndsAt(disk: seq<Byte>, sector: nat, end: nat)
  {
    && sector * SECTOR + (end + 1) * ITEM_BYTES <= |disk|
    && FirstByte(disk, sector, end) == 0
    && forall i :: 0 <= i < end ==> FirstByte(disk, sector, i) != 0
  }

  /** The number of entries among the first n that are not deleted. */
  function LiveBelow(disk: seq<Byte>, sector: nat, n: nat): (live: nat)
    requires sector * SECTOR + n * ITEM_BYTES <= |disk|
    ensures live <= n
  {
    if n == 0 then 0
    else LiveBelow(disk, sector, n - 1) + (if FirstByte(disk, sector, n - 1) == DELETED then 0 else 1)
  }

  /** fat16_get_total_items_for_directory. */
  method CountItems(stream: Stream, startSector: nat, ghost end: nat) returns (total: int)
    requires |stream.disk| % SECTOR == 0 && EndsAt(stream.disk, startSector, end)
    requires startSector * SECTOR + (end + 1) * ITEM_BYTES < 0x8000_0000
    modifies stream
    ensures total == LiveBelow(stream.disk, startSector, end)
  {
    var res := stream.Seek(startSector * SECTOR);
    var item := new Byte[ITEM_BYTES](_ => 0);
    total := 0;
    ghost var i := 0;
    while true
      invariant 0 <= i <= end && stream.pos == startSector * SECTOR + i * ITEM_BYTES
      invariant total == LiveBelow(stream.disk, startSector, i)
      decreases end - i
    {
      ItemInSector(startSector, i);
      res := stream.Read(item, 0, ITEM_BYTES);
      assert item[..][0] == FirstByte(stream.disk, startSector, i);
      if item[0] == DELETED {
        i := i + 1;
        continue;
      }
      if item[0] == 0 {
        break;
      }
      total := total + 1;
      i := i + 1;
    }
  }

  lemma {:induction false} ItemInSector(sector: nat, i: nat)
    ensures Safe(sector * SECTOR + i * ITEM_BYTES, ITEM_BYTES)
  {
    var q, k := i / 16, i % 16;
    assert i == 16 * q + k;
    var at, n := sector * SECTOR + i * ITEM_BYTES, sector + q;
    assert at == SECTOR * n + k * ITEM_BYTES;
    assert at % SECTOR == k * ITEM_BYTES;
  }

  /** A deleted entry stands before a live one. */
  ghost predicate HasHole(disk: seq<Byte>, sector: nat, end: nat)
    requires sector * SECTOR + end * ITEM_BYTES <= |disk|
  {
    exists i, j :: 0 <= i < j < end && FirstByte(disk, sector, i) == DELETED && FirstByte(disk, sector, j) != DELETED
  }

  /** The lookup scans as many entries as there are live ones. It comes to every live entry exactly
      when no deleted entry stands before a live one. */
  lemma {:induction false} EveryLiveEntryScanned(disk: seq<Byte>, sector: nat, end: nat)
    requires sector * SECTOR + end * ITEM_BYTES <= |disk|
    ensures (forall j :: 0 <= j < end && FirstByte(disk, sector, j) != DELETED ==> j < LiveBelow(disk, sector, end))
            <==> !HasHole(disk, sector, end)
  {
    if HasHole(disk, sector, end) {
      var i, j :| 0 <= i < j < end && FirstByte(disk, sector, i) == DELETED && FirstByte(disk, sector, j) != DELETED;
      var last := LastLive(disk, sector, end, j);
      HoleCosts(disk, sector, i, last);
    } else {
      NoHoleIsPrefix(disk, sector, end);
    }
  }

  /** For example: a directory of a deleted entry and a live one behind it. The lookup scans one entry. */
  lemma {:induction false} LiveEntryMissed(disk: seq<Byte>)
    requires |disk| == 512 && disk[0] == 0xE5 && disk[32] == 'A' as int && disk[64] == 0
    ensures EndsAt(disk, 0, 2) && LiveBelow(disk, 0, 2) == 1 && FirstByte(disk, 0, 1) != 0xE5
  {
    assert FirstByte(disk, 0, 0) == 0xE5 && FirstByte(disk, 0, 1) == 'A' as int;
    assert LiveBelow(disk, 0, 1) == 0;
  }

  lemma {:induction false} LastLive(disk: seq<Byte>, sector: nat, end: nat, j: nat) returns (last: nat)
    requires sector * SECTOR + end * ITEM_BYTES <= |disk| && j < end && FirstByte(disk, sector, j) != DELETED
    ensures j <= last < end && FirstByte(disk, sector, last) != DELETED
    ensures LiveBelow(disk, sector, end) == LiveBelow(disk, sector, last) + 1
  {
    if FirstByte(disk, sector, end - 1) != DELETED {
      last := end - 1;
    } else {
      last := LastLive(disk, sector, end - 1, j);
    }
  }

  lemma {:induction false} HoleCosts(disk: seq<Byte>, sector: nat, i: nat, n: nat)
    requires sector * SECTOR + n * ITEM_BYTES <= |disk| && i < n && FirstByte(disk, sector, i) == DELETED
    ensures LiveBelow(disk, sector, n) < n
  {
    if i < n - 1 {
      HoleCosts(disk, sector, i, n - 1);
    }
  }

  lemma {:induction false} NoHoleIsPrefix(disk: seq<Byte>, sector: nat, end: nat)
    requires sector * SECTOR + end * ITEM_BYTES <= |disk| && !HasHole(disk, sector, end)
    ensures forall j :: 0 <= j < end ==> (FirstByte(disk, sector, j) != DELETED <==> j < LiveBelow(disk, sector, end))
  {
    if end > 0 {
      forall i, j | 0 <= i < j < end - 1 && FirstByte(disk, sector, i) == DELETED
        ensures FirstByte(disk, sector, j) == DELETED
      {
      }
      NoHoleIsPrefix(disk, sector, end - 1);
      var m := LiveBelow(disk, sector, end - 1);
      if m < end - 1 {
        assert FirstByte(disk, sector, m) == DELETED;
      }
    }
  }

  // ----- names -----

  /** The bytes before the first blank or zero. */
  function Trim(s: seq<Byte>): (t: seq<Byte>)
    ensures t <= s && forall k :: 0 <= k < |t| ==> t[k] != 0 && t[k] != 0x20
    ensures |t| < |s| ==> s[|t|] == 0 || s[|t|] == 0x20
  {
    if s == [] || s[0] == 0 || s[0] == 0x20 then []
    else
      assert forall k :: 0 <= k < |s| - 1 ==> s[1..][k] == s[k + 1];
      [s[0]] + Trim(s[1..])
  }

  /** An entry's name and extension fields. */
  datatype Item = Item(filename: seq<Byte>, ext: seq<Byte>)
  {
    predicate Valid()
    {
      |filename| == NAME_BYTES && |ext| == EXT_BYTES
    }

    /** The name as a user writes it. */
    function FullName(): (s: seq<Byte>)
      requires Valid()
    {
      Trim(filename) + (if ext[0] != 0 && ext[0] != 0x20 then [0x2E] + Trim(ext) else [])
    }
  }

  /** A field filled up with blanks. */
  function Padded(s: seq<Byte>, n: nat): seq<Byte>
    requires |s| <= n
  {
    s + seq(n - |s|, _ => 0x20)
  }

  /** For example: "DATA    " and "TXT" decode to "DATA.TXT". */
  lemma {:induction false} DataTxt()
    ensures var item := Item([0x44, 0x41, 0x54, 0x41, 0x20, 0x20, 0x20, 0x20], [0x54, 0x58, 0x54]);
            item.Valid() && item.FullName() == [0x44, 0x41, 0x54, 0x41, 0x2E, 0x54, 0x58, 0x54]
  {
    var name, ext := [0x44, 0x41, 0x54, 0x41], [0x54, 0x58, 0x54];
    assert Padded(name, 8) == [0x44, 0x41, 0x54, 0x41, 0x20, 0x20, 0x20, 0x20];
    assert Padded(ext, 3) == ext;
    DecodeInvertsPadding(name, ext);
    assert name + [0x2E] + ext == [0x44, 0x41, 0x54, 0x41, 0x2E, 0x54, 0x58, 0x54];
  }

  predicate IsNamePart(s: seq<Byte>)
  {
    forall k :: 0 <= k < |s| ==> s[k] != 0 && s[k] != 0x20
  }

  lemma {:induction false} TrimPadded(s: seq<Byte>, n: nat)
    requires |s| <= n && IsNamePart(s)
    ensures Trim(Padded(s, n)) == s
  {
    if s != [] {
      assert Padded(s, n)[1..] == Padded(s[1..], n - 1);
      TrimPadded(s[1..], n - 1);
    }
  }

  /** Padding a name to an entry and decoding it gives the name back: NAME, or NAME.EXT. */
  lemma {:induction false} DecodeInvertsPadding(name: seq<Byte>, ext: seq<Byte>)
    requires 1 <= |name| <= NAME_BYTES && |ext| <= EXT_BYTES && IsNamePart(name) && IsNamePart(ext)
    ensures Item(Padded(name, NAME_BYTES), Padded(ext, EXT_BYTES)).Valid()
    ensures Item(Padded(name, NAME_BYTES), Padded(ext, EXT_BYTES)).FullName()
            == if ext == [] then name else name + [0x2E] + ext
  {
    TrimPadded(name, NAME_BYTES);
    TrimPadded(ext, EXT_BYTES);
    var p := Padded(ext, EXT_BYTES);
    if ext != [] {
      assert p[0] == ext[0];
    } else {
      assert p[0] == 0x20;
    }
  }

  /** A buffer holds s as a C string. */
  predicate HoldsString(buf: seq<Byte>, s: seq<Byte>)
  {
    |s| < |buf| && s <= buf && buf[|s|] == 0
  }

  /** fat16_to_proper_string: the trimmed field goes behind what the buffer holds so far. */
  method ToProperString(out: array<Byte>, at: nat, field: seq<Byte>, ghost before: seq<Byte>) returns (end: nat)
    requires |field| >= 1 && at + |field| < out.Length && |before| == at && before <= out[..]
    modifies out
    ensures end == at + |Trim(field)|
    ensures HoldsString(out[..], before + Trim(field))
  {
    ghost var t := Trim(field);
    var i := 0;
    end := at;
    while true
      invariant 0 <= i <= |t| && i < |field| && end == at + i
      invariant before + t[..i] <= out[..]
      decreases |field| - i
    {
      if field[i] == 0 || field[i] == 0x20 {
        assert i == |t|;
        break;
      }
      assert before + t[..i + 1] == before + t[..i] + [field[i]];
      out[end] := field[i];
      end := end + 1;
      if i >= |field| - 1 {
        break;
      }
      i := i + 1;
    }
    assert t[..end - at] == t;
    out[end] := 0;
  }

  /** memset of the first n bytes to zero. */
  method Clear(out: array<Byte>, n: nat)
    requires n <= out.Length
    modifies out
    ensures forall k :: 0 <= k < out.Length ==> out[k] == if k < n then 0 else old(out[k])
  {
    var i := 0;
    while i < n
      invariant 0 <= i <= n
      invariant forall k :: 0 <= k < out.Length ==> out[k] == if k < i then 0 else old(out[k])
    {
      out[i] := 0;
      i := i + 1;
    }
  }

  /** fat16_get_full_relative_filename: the buffer holds the full name. */
  method GetFullRelativeFilename(item: Item, out: array<Byte>, maxLen: nat)
    requires item.Valid() && NAME_BYTES + EXT_BYTES + 2 <= maxLen <= out.Length
    modifies out
    ensures HoldsString(out[..], item.FullName())
  {
    Clear(out, maxLen);
    ghost var name := Trim(item.filename);
    assert [] + name == name;
    var end := ToProperString(out, 0, item.filename, []);
    if item.ext[0] != 0 && item.ext[0] != 0x20 {
      AppendExtension(out, end, item.ext, name);
    }
  }

  /** The dot and the extension, behind the name. */
  method AppendExtension(out: array<Byte>, at: nat, ext: seq<Byte>, ghost name: seq<Byte>)
    requires |ext| >= 1 && at + 1 + |ext| < out.Length && at == |name| && name <= out[..]
    modifies out
    ensures HoldsString(out[..], name + ([0x2E] + Trim(ext)))
  {
    out[at] := 0x2E;
    assert name + [0x2E] <= out[..];
    var end := ToProperString(out, at + 1, ext, name + [0x2E]);
    ConcatAssociative(name, [0x2E], Trim(ext));
  }

  lemma {:induction false} ConcatAssociative(a: seq<Byte>, b: seq<Byte>, c: seq<Byte>)
    ensures a + b + c == a + (b + c)
  {
  }

  // ----- comparing without regard to case -----

  /** tolower of ctype.c. */
  function ToLower(c: Byte): Byte
  {
    if 0x41 <= c <= 0x5A then c + 0x20 else c
  }

  /** tolower sets the bit 0x20 of an upper-case letter. */
  lemma {:induction false} ToLowerIsOr(c: Byte)
    requires 0x41 <= c <= 0x5A
    ensures OrWords(c, 0x20) == ToLower(c)
  {
    var h := c / 2 / 2 / 2 / 2 / 2;
    assert h == 2;
    assert Or(c / 2 / 2 / 2 / 2 / 2, 1) == 3;
    assert Or(c / 2 / 2 / 2 / 2, 2) == 2 * 3 + c / 2 / 2 / 2 / 2 % 2;
    assert Or(c / 2 / 2 / 2, 4) == 2 * Or(c / 2 / 2 / 2 / 2, 2) + c / 2 / 2 / 2 % 2;
    assert Or(c / 2 / 2, 8) == 2 * Or(c / 2 / 2 / 2, 4) + c / 2 / 2 % 2;
    assert Or(c / 2, 0x10) == 2 * Or(c / 2 / 2, 8) + c / 2 % 2;
    assert Or(c, 0x20) == 2 * Or(c / 2, 0x10) + c % 2;
  }

  /** Two characters compare as equal if and only if they are the same or the two cases of one letter. */
  lemma {:induction false} SameLetter(a: Byte, b: Byte)
    ensures ToLower(a) == ToLower(b)
            <==> a == b || ('A' as int <= a <= 'Z' as int && b == a + 0x20) || ('A' as int <= b <= 'Z' as int && a == b + 0x20)
  {
  }

  predicate NoSmallLetter(s: seq<Byte>)
  {
    forall k :: 0 <= k < |s| ==> !('a' as int <= s[k] <= 'z' as int)
  }

  /** Names without small letters, as entries have them, are equal up to case only if they are the same. */
  lemma {:induction false} SameName(a: seq<Byte>, b: seq<Byte>)
    requires NoSmallLetter(a) && NoSmallLetter(b)
    ensures SameIgnoringCase(a, b) <==> a == b
  {
    if SameIgnoringCase(a, b) {
      forall k | 0 <= k < |a| ensures a[k] == b[k] {
        SameLetter(a[k], b[k]);
      }
    }
  }

  /** A byte as the signed `char` it is compared as; letters are the same either way. */
  function Signed(c: Byte): int
  {
    if c < 0x80 then c else c - 0x100
  }

  /** Two strings are equal up to the case of letters. */
  ghost predicate SameIgnoringCase(a: seq<Byte>, b: seq<Byte>)
  {
    |a| == |b| && forall k :: 0 <= k < |a| ==> ToLower(a[k]) == ToLower(b[k])
  }

  /** Byte k of a C string, including its terminator. */
  function CharAt(s: seq<Byte>, k: nat): Byte
    requires k <= |s|
  {
    if k == |s| then 0 else s[k]
  }

  predicate NoZero(s: seq<Byte>)
  {
    forall k :: 0 <= k < |s| ==> s[k] != 0
  }

  /** The strings, with their terminators, differ by d at character i, and at none before. */
  ghost predicate DifferFirst(s1: seq<Byte>, s2: seq<Byte>, i: nat, d: int)
  {
    && i <= |s1| && i <= |s2| && (forall k :: 0 <= k < i ==> ToLower(s1[k]) == ToLower(s2[k]))
    && d == Signed(ToLower(CharAt(s1, i))) - Signed(ToLower(CharAt(s2, i))) != 0
  }

  /** A signed character agrees with its byte up to 256, between -128 and 127. */
  lemma {:induction false} SignedIs(c: Byte)
    ensures -128 <= Signed(c) <= 127 && (Signed(c) == c || Signed(c) == c - 256)
  {
  }

  /** strcasecmp: the first difference, or 0. */
  method StrCaseCmp(s1: seq<Byte>, s2: seq<Byte>) returns (result: int)
    requires NoZero(s1) && NoZero(s2)
    ensures result == 0 <==> SameIgnoringCase(s1, s2)
    ensures result != 0 ==> exists i :: DifferFirst(s1, s2, i, result)
  {
    var i := 0;
    while true
      invariant 0 <= i <= |s1| && i <= |s2|
      invariant forall k :: 0 <= k < i ==> ToLower(s1[k]) == ToLower(s2[k])
      decreases |s1| - i
    {
      result := Signed(ToLower(CharAt(s1, i))) - Signed(ToLower(CharAt(s2, i)));
      if result != 0 || CharAt(s1, i) == 0 {
        assert result != 0 ==> DifferFirst(s1, s2, i, result);
        break;
      }
      i := i + 1;
    }
  }

  /** The entry has the name, without regard to case. */
  ghost predicate IsNamed(item: Item, name: seq<Byte>)
    requires item.Valid()
  {
    SameIgnoringCase(item.FullName(), name)
  }

  /** One of the first `total` entries has the name, without regard to case. */
  ghost predicate Finds(items: seq<Item>, total: nat, name: seq<Byte>)
    requires total <= |items| && forall i :: 0 <= i < |items| ==> items[i].Valid()
  {
    exists i :: 0 <= i < total && IsNamed(items[i], name)
  }

  /** fat16_find_item_in_directory: the last of the first `total` entries whose name equals the query
      without regard to case, or -1. */
  method FindItem(items: seq<Item>, total: nat, name: seq<Byte>) returns (found: int)
    requires total <= |items| && (forall i :: 0 <= i < |items| ==> items[i].Valid()) && NoZero(name)
    ensures found == -1 || 0 <= found < total
    ensures found >= 0 ==> IsNamed(items[found], name)
    ensures forall i :: found < i < total && 0 <= i ==> !IsNamed(items[i], name)
    ensures found >= 0 <==> Finds(items, total, name)
  {
    found := -1;
    var buf := new Byte[100](_ => 0);
    var i := 0;
    while i < total
      invariant 0 <= i <= total && -1 <= found < i
      invariant found >= 0 ==> IsNamed(items[found], name)
      invariant forall k :: found < k < i && 0 <= k ==> !IsNamed(items[k], name)
    {
      var cmp := CompareName(items[i], buf, name);
      if cmp == 0 {
        found := i;
      }
      i := i + 1;
    }
  }

  /** The decoded name of an entry compared with the query. */
  method CompareName(item: Item, buf: array<Byte>, name: seq<Byte>) returns (cmp: int)
    requires item.Valid() && buf.Length == 100 && NoZero(name)
    modifies buf
    ensures cmp == 0 <==> IsNamed(item, name)
  {
    GetFullRelativeFilename(item, buf, 100);
    var end := StringEnd(buf, item.FullName());
    assert buf[..end] == item.FullName();
    cmp := StrCaseCmp(buf[..end], name);
  }

  /** strlen of the string in a buffer. */
  method StringEnd(buf: array<Byte>, ghost s: seq<Byte>) returns (end: nat)
    requires HoldsString(buf[..], s) && NoZero(s)
    ensures end == |s|
  {
    end := 0;
    while buf[end] != 0
      invariant 0 <= end <= |s|
      decreases |s| - end
    {
      end := end + 1;
    }
  }
}
