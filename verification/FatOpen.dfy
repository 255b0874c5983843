/** Opening a path on a FAT16 volume: fat16_open and the lookup behind it. */
module FatOpen {
  import opened Words
  import opened FatDirectory
  import opened PathParser

  const EROFS := 30

  const TYPE_DIRECTORY := 0      // what fat16.c gives an item it has found ...
  const TYPE_FILE := 1
  const SUBDIRECTORY := 0x10     // ... and the attribute mask it compares that with

  datatype Mode = Read | Write | Append | Invalid

  /** The root directory in memory, with the number of entries to look at. */
  datatype Root = Root(items: seq<Item>, directories: seq<bool>, total: nat)
  {
    predicate Valid()
    {
      total <= |items| == |directories| && forall i :: 0 <= i < |items| ==> items[i].Valid()
    }
  }

  /** Which allocations succeed: the open file, the item found, the file descriptor. */
  datatype Room = Room(file: bool, item: bool, descriptor: bool)

  /** The characters of a C string are bytes other than 0. */
  predicate IsText(s: string)
  {
    forall i :: 0 <= i < |s| ==> 0 < s[i] as int < 0x100
  }

  function Bytes(s: string): (b: seq<Byte>)
    requires IsText(s)
    ensures |b| == |s| && NoZero(b) && forall i :: 0 <= i < |s| ==> b[i] == s[i] as int
  {
    seq(|s|, i requires 0 <= i < |s| => s[i] as int)
  }

  /** The components of a text are texts. */
  lemma {:induction false} ComponentsAreText(s: string)
    requires IsText(s)
    ensures forall p :: p in Components(s) ==> IsText(p)
  {
    FieldsAreText(s);
    NonEmptyAreFields(Fields(s));
  }

  lemma {:induction false} FieldsAreText(s: string)
    requires IsText(s)
    ensures forall p :: p in Fields(s) ==> IsText(p)
    decreases |s|
  {
    var k := SegmentEnd(s);
    if k < |s| {
      FieldsAreText(s[k + 1..]);
    }
  }

  lemma {:induction false} NonEmptyAreFields(fields: seq<string>)
    ensures forall p :: p in NonEmpty(fields) ==> p in fields
  {
    if fields != [] {
      NonEmptyAreFields(fields[1..]);
    }
  }

  /** fat16_get_directory_entry: an item is found for a path of one component that names an entry. A
      second component ends the search, because no item has the type it asks for. */
  method GetDirectoryEntry(root: Root, path: PathPart, room: Room) returns (found: bool)
    requires root.Valid() && IsText(path.part)
    ensures found <==> path.next == null && room.item && Finds(root.items, root.total, Bytes(path.part))
  {
    var index := FindItem(root.items, root.total, Bytes(path.part));
    if index < 0 || !room.item {
      return false;
    }
    var itemType := if root.directories[index] then TYPE_DIRECTORY else TYPE_FILE;
    if path.next != null && itemType != SUBDIRECTORY {
      return false;
    }
    found := true;
  }

  /** fat16_open: 0 for an open file, else the first error. */
  method Open(root: Root, path: PathPart, mode: Mode, room: Room) returns (res: int)
    requires root.Valid() && IsText(path.part)
    ensures res == if mode != Read then -30 else if !room.file then -12
                   else if path.next == null && room.item && Finds(root.items, root.total, Bytes(path.part)) then 0
                   else -5
  {
    if mode != Read {
      return -EROFS;
    }
    if !room.file {
      return -ENOMEM;
    }
    var found := GetDirectoryEntry(root, path, room);
    res := if found then 0 else -EIO;
  }
}
