/** The descriptor table of file.c. */
module FileTable {
  import opened Words
  import opened PathParser
  import opened FatDirectory
  import opened FatOpen

  const MAX_FILE_DESCRIPTORS := 512

  class FileDescriptor {
    const index: int

    constructor (index: int)
      ensures this.index == index
    {
      this.index := index;
    }
  }

  /** get_file_mode_by_string: only the first character counts. */
  function ModeOf(mode: string): Mode
  {
    if mode == [] then Invalid
    else if mode[0] == 'r' then Read
    else if mode[0] == 'w' then Write
    else if mode[0] == 'a' then Append
    else Invalid
  }

  /** Each mode has its letter, and the rest of the string does not matter. */
  lemma {:induction false} ModeOfIs(letter: char, rest: string)
    ensures ModeOf([letter] + rest) == Read <==> letter == 'r'
    ensures ModeOf([letter] + rest) == Write <==> letter == 'w'
    ensures ModeOf([letter] + rest) == Append <==> letter == 'a'
    ensures ModeOf("") == Invalid
  {
  }

  /** The path has just one component, which names an entry of the root directory, the mode is that for
      reading, and there is room for the file. */
  ghost predicate CanOpen(fileName: string, mode: string, root: Root, room: Room)
    requires root.Valid() && IsText(fileName)
  {
    && fileName != [] && fileName[0] == '/' && |Components(fileName)| == 1
    && mode != [] && mode[0] == 'r' && room.file && room.item
    && IsText(Components(fileName)[0]) && Finds(root.items, root.total, Bytes(Components(fileName)[0]))
  }

  class Table {
    const descriptors: array<FileDescriptor?>
    var lowIndex: int     // the word at address 0, where the index of a NULL descriptor lands

    constructor ()
      ensures fresh(descriptors)
      ensures Valid() && forall i :: 0 <= i < MAX_FILE_DESCRIPTORS ==> descriptors[i] == null
    {
      descriptors := new FileDescriptor?[MAX_FILE_DESCRIPTORS](_ => null);
      lowIndex := 0;
    }

    /** Every slot is free or holds the descriptor whose index is one more than the slot. */
    ghost predicate Valid()
      reads descriptors
    {
      descriptors.Length == MAX_FILE_DESCRIPTORS &&
      forall i :: 0 <= i < MAX_FILE_DESCRIPTORS ==> descriptors[i] != null ==> descriptors[i].index == i + 1
    }

    /** get_file_descriptor, whose bound leaves out the last descriptor. */
    function GetDescriptor(index: int): FileDescriptor?
      requires descriptors.Length == MAX_FILE_DESCRIPTORS
      reads descriptors
    {
      if index <= 0 || index >= MAX_FILE_DESCRIPTORS then null else descriptors[index - 1]
    }

    /** The descriptor has been issued and not closed. */
    ghost predicate IsOpen(fd: int)
      requires descriptors.Length == MAX_FILE_DESCRIPTORS
      reads descriptors
    {
      1 <= fd <= MAX_FILE_DESCRIPTORS && descriptors[fd - 1] != null
    }

    /** An open descriptor is found again exactly when it is not number 512. */
    lemma OpenIsFoundExactly(fd: int)
      requires Valid() && IsOpen(fd)
      ensures GetDescriptor(fd) != null <==> fd != 512
      ensures GetDescriptor(fd) != null ==> GetDescriptor(fd).index == fd
    {
      assert descriptors[fd - 1].index == fd;
    }

    /** Slot i is the lowest free one of a table. */
    ghost predicate IsLowestFree(table: seq<FileDescriptor?>, i: int)
    {
      0 <= i < |table| && table[i] == null && forall k :: 0 <= k < i ==> table[k] != null
    }

    /** make_new_file_descriptor: the lowest free slot. The code does not look at what kzalloc gives:
        without room the slot stays free, and the number goes to address 0. */
    method MakeDescriptor(granted: bool) returns (res: int, fd: FileDescriptor?)
      requires Valid()
      modifies this`lowIndex, descriptors
      ensures Valid()
      ensures res == if null in old(descriptors[..]) then 0 else -ENOMEM
      ensures res == 0 && granted ==>
                && fd != null && IsLowestFree(old(descriptors[..]), fd.index - 1)
                && descriptors[..] == old(descriptors[..])[fd.index - 1 := fd]
      ensures res == 0 && !granted ==> fd == null && IsLowestFree(old(descriptors[..]), lowIndex - 1)
      ensures res != 0 || !granted ==> descriptors[..] == old(descriptors[..])
    {
      res := -ENOMEM;
      fd := null;
      ghost var before := descriptors[..];
      var i := 0;
      while i < MAX_FILE_DESCRIPTORS
        invariant 0 <= i <= MAX_FILE_DESCRIPTORS && Valid()
        invariant descriptors[..] == before && res == -ENOMEM && fd == null
        invariant forall k :: 0 <= k < i ==> before[k] != null
      {
        if descriptors[i] == null {
          assert before[i] == null;
          if granted {
            fd := new FileDescriptor(i + 1);
          } else {
            lowIndex := i + 1;
          }
          descriptors[i] := fd;
          return 0, fd;
        }
        i := i + 1;
      }
    }

    /** fopen on the disk with the given root directory, if it is bound to a filesystem. The result is
        the number of the lowest free slot plus one, or 0 with the table unchanged. That number is open
        exactly if there was room for the descriptor. */
    method Fopen(fileName: string, mode: string, bound: bool, root: Root, room: Room) returns (res: int)
      requires Valid() && root.Valid() && IsText(fileName)
      modifies this`lowIndex, descriptors
      ensures Valid() && 0 <= res <= MAX_FILE_DESCRIPTORS
      ensures res > 0 <==> bound && CanOpen(fileName, mode, root, room) && null in old(descriptors[..])
      ensures res == 0 || !room.descriptor ==> descriptors[..] == old(descriptors[..])
      ensures res > 0 ==> IsLowestFree(old(descriptors[..]), res - 1) && (IsOpen(res) <==> room.descriptor)
      ensures forall i :: 0 <= i < MAX_FILE_DESCRIPTORS && i != res - 1 ==> descriptors[i] == old(descriptors[i])
    {
      var part;
      ghost var nodes;
      part, nodes := PathParse(fileName);
      if part == null || !bound || ModeOf(mode) == Invalid {
        return 0;
      }
      HeadOfList(part, nodes, Components(fileName));
      ComponentsAreText(fileName);
      res := FatOpen.Open(root, part, ModeOf(mode), room);
      if res < 0 {
        return 0;
      }
      var fd;
      ghost var before := descriptors[..];
      res, fd := MakeDescriptor(room.descriptor);
      assert forall i :: 0 <= i < MAX_FILE_DESCRIPTORS ==> before[i] == old(descriptors[i]);
      assert forall i :: 0 <= i < MAX_FILE_DESCRIPTORS ==> descriptors[..][i] == descriptors[i];
      if res < 0 {
        return 0;
      }
      res := if fd != null then fd.index else lowIndex;
    }

    /** fclose; closed is what the filesystem answers. An open descriptor below 512 frees its slot and
        no other; number 512 cannot be closed. */
    method Fclose(fd: int, closed: int) returns (res: int)
      requires Valid()
      modifies descriptors
      ensures Valid()
      ensures res == if IsOpenBefore(old(descriptors[..]), fd) then closed else -EINVAL
      ensures descriptors[..] == if IsOpenBefore(old(descriptors[..]), fd) && closed >= 0
                                 then old(descriptors[..])[fd - 1 := null] else old(descriptors[..])
    {
      var desc := GetDescriptor(fd);
      if desc == null {
        return -EINVAL;
      }
      res := closed;
      if res < 0 {
        return;
      }
      descriptors[desc.index - 1] := null;
    }
  }

  /** For example: the last of 512 files opened one after the other gets number 512, with which it
      can neither be found nor closed. */
  method OpenAll(fileName: string, mode: string, root: Root) returns (table: Table, last: int, res: int)
    requires root.Valid() && IsText(fileName) && CanOpen(fileName, mode, root, Room(true, true, true))
    ensures table.Valid() && last == 512 && table.IsOpen(last)
    ensures table.GetDescriptor(last) == null && res == -22
  {
    table := new Table();
    last := 0;
    var i := 0;
    while i < MAX_FILE_DESCRIPTORS
      invariant 0 <= i <= MAX_FILE_DESCRIPTORS && table.Valid() && fresh(table) && fresh(table.descriptors)
      invariant last == i
      invariant forall k :: 0 <= k < i ==> table.descriptors[k] != null
      invariant forall k :: i <= k < MAX_FILE_DESCRIPTORS ==> table.descriptors[k] == null
    {
      ghost var before := table.descriptors[..];
      assert before[i] == null && forall k :: 0 <= k < i ==> before[k] != null;
      last := table.Fopen(fileName, mode, true, root, Room(true, true, true));
      i := i + 1;
    }
    res := table.Fclose(last, 0);
  }

  /** And where there is no room for a descriptor, fopen gives a number that is not open. */
  method OpenWithoutRoom(fileName: string, mode: string, root: Root) returns (table: Table, fd: int)
    requires root.Valid() && IsText(fileName) && CanOpen(fileName, mode, root, Room(true, true, false))
    ensures table.Valid() && fd == 1 && !table.IsOpen(fd)
  {
    table := new Table();
    ghost var before := table.descriptors[..];
    assert before[0] == null;
    fd := table.Fopen(fileName, mode, true, root, Room(true, true, false));
  }

  /** fd stands for an open descriptor that get_file_descriptor accepts. */
  predicate IsOpenBefore(table: seq<FileDescriptor?>, fd: int)
    requires |table| == MAX_FILE_DESCRIPTORS
  {
    1 <= fd < MAX_FILE_DESCRIPTORS && table[fd - 1] != null
  }
}
