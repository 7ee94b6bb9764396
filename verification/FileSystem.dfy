/** The read-only file system image: one boot block, then inode blocks, then
    data blocks, all of 4096 bytes.  `disk` is the image as bytes. */
module FileSystem {
  import opened Bytes

  const BLOCKS_PER_INODE: nat := 1023
  const MAX_ENTRIES: nat := 63
  const NAME_LEN: nat := 32

  const RTC_TYPE: nat := 0
  const DIR_TYPE: nat := 1
  const FILE_TYPE: nat := 2

  // ----- layout of the image -----

  /** The value of n bytes, least significant first. */
  function LittleEndian(d: seq<Byte>, off: nat, n: nat): nat
    requires off + n <= |d|
    decreases n
  {
    if n == 0 then 0 else d[off] as int + 0x100 * LittleEndian(d, off + 1, n - 1)
  }

  function Le32(d: seq<Byte>, off: nat): nat
    requires off + 4 <= |d|
  {
    LittleEndian(d, off, 4)
  }

  function EntryCount(disk: seq<Byte>): nat
    requires 4096 <= |disk|
  {
    Le32(disk, 0)
  }

  function InodeCount(disk: seq<Byte>): nat
    requires 4096 <= |disk|
  {
    Le32(disk, 4)
  }

  function BlockCount(disk: seq<Byte>): nat
    requires 4096 <= |disk|
  {
    Le32(disk, 8)
  }

  /** The 64 bytes of directory entry i. */
  function Entry(disk: seq<Byte>, i: nat): (e: seq<Byte>)
    requires 4096 <= |disk| && i < MAX_ENTRIES
    ensures |e| == 64
  {
    disk[64 + 64 * i..128 + 64 * i]
  }

  function EntryName(e: seq<Byte>): seq<Byte>
    requires |e| == 64
  {
    CString(e[..NAME_LEN])
  }

  function EntryType(e: seq<Byte>): nat
    requires |e| == 64
  {
    Le32(e, 32)
  }

  function EntryInode(e: seq<Byte>): nat
    requires |e| == 64
  {
    Le32(e, 36)
  }

  function InodeLength(disk: seq<Byte>, ino: nat): nat
    requires 4096 <= |disk| && (ino + 2) * 4096 <= |disk|
  {
    Le32(disk, (ino + 1) * 4096)
  }

  function InodeBlock(disk: seq<Byte>, ino: nat, k: nat): nat
    requires 4096 <= |disk| && (ino + 2) * 4096 <= |disk| && k < 1023
  {
    Le32(disk, (ino + 1) * 4096 + 4 + 4 * k)
  }

  /** What the image must satisfy: the counts fit the image, names end within
      their 32 bytes, lengths fit an inode, block numbers are in range. */
  ghost predicate WellFormed(disk: seq<Byte>) {
    && 4096 <= |disk|
    && EntryCount(disk) <= MAX_ENTRIES
    && |disk| == (1 + InodeCount(disk) + BlockCount(disk)) * 4096
    && (forall i :: 0 <= i < EntryCount(disk) ==> NUL in Entry(disk, i)[..NAME_LEN])
    && (forall ino :: 0 <= ino < InodeCount(disk) ==> InodeLength(disk, ino) <= 1023 * 4096)
    && (forall ino, k :: 0 <= ino < InodeCount(disk) && 0 <= k < 1023
                         && k * 4096 < InodeLength(disk, ino) ==>
                           InodeBlock(disk, ino, k) < BlockCount(disk))
  }

  /** Byte address of the k-th data block of a file. */
  function BlockStart(disk: seq<Byte>, ino: nat, k: nat): (r: nat)
    requires WellFormed(disk) && ino < InodeCount(disk)
    requires k < 1023 && k * 4096 < InodeLength(disk, ino)
    ensures r + 4096 <= |disk|
  {
    (1 + InodeCount(disk) + InodeBlock(disk, ino, k)) * 4096
  }

  // ----- files as flat byte sequences -----

  /** The first n data blocks of a file, one after the other. */
  ghost function Blocks(disk: seq<Byte>, ino: nat, n: nat): (r: seq<Byte>)
    requires WellFormed(disk) && ino < InodeCount(disk)
    requires n <= 1023 && n * 4096 < InodeLength(disk, ino) + 4096
    ensures |r| == n * 4096
  {
    if n == 0 then [] else
      var b := BlockStart(disk, ino, n - 1);
      Blocks(disk, ino, n - 1) + disk[b..b + 4096]
  }

  /** The whole file: its blocks, cut at its length.  No such inode, no bytes. */
  ghost function Contents(disk: seq<Byte>, ino: nat): (r: seq<Byte>)
    requires WellFormed(disk)
    ensures ino < InodeCount(disk) ==> |r| == InodeLength(disk, ino)
    ensures ino >= InodeCount(disk) ==> r == []
  {
    if ino >= InodeCount(disk) then [] else
      var len := InodeLength(disk, ino);
      Blocks(disk, ino, (len + 4096 - 1) / 4096)[..len]
  }

  /** At most `length` bytes of `file` from `offset` on. */
  ghost function Slice(file: seq<Byte>, offset: nat, length: nat): (r: seq<Byte>)
    ensures |r| == Min(length, Max(0, |file| - offset))
  {
    if offset >= |file| then [] else file[offset..Min(offset + length, |file|)]
  }

  lemma {:induction false} BlocksAt(disk: seq<Byte>, ino: nat, n: nat, k: nat, o: nat)
    requires WellFormed(disk) && ino < InodeCount(disk)
    requires n <= 1023 && n * 4096 < InodeLength(disk, ino) + 4096
    requires k < n && o < 4096
    ensures Blocks(disk, ino, n)[k * 4096 + o] == disk[BlockStart(disk, ino, k) + o]
  {
    if k < n - 1 {
      BlocksAt(disk, ino, n - 1, k, o);
    }
  }

  /** Byte o of the k-th block of a file. */
  function FileByte(disk: seq<Byte>, ino: nat, k: nat, o: nat): Byte
    requires WellFormed(disk) && ino < InodeCount(disk) && o < 4096
    requires k < BLOCKS_PER_INODE && k * 4096 < InodeLength(disk, ino)
  {
    disk[BlockStart(disk, ino, k) + o]
  }

  /** `file` is what the blocks of an inode hold, byte o of block k at k * 4096 + o. */
  ghost predicate Flat(disk: seq<Byte>, ino: nat, file: seq<Byte>)
    requires WellFormed(disk) && ino < InodeCount(disk)
  {
    && |file| == InodeLength(disk, ino)
    && forall k: nat, o: nat {:trigger FileByte(disk, ino, k, o)} ::
         o < 4096 && k < BLOCKS_PER_INODE && k * 4096 + o < |file| ==>
           file[k * 4096 + o] == FileByte(disk, ino, k, o)
  }

  lemma BlocksCover(len: nat, k: nat, o: nat)
    requires k * 4096 + o < len
    ensures k < (len + 4096 - 1) / 4096 && (len + 4096 - 1) / 4096 * 4096 < len + 4096
  {
  }

  lemma ContentsAt(disk: seq<Byte>, ino: nat, k: nat, o: nat)
    requires WellFormed(disk) && ino < InodeCount(disk) && o < 4096 && k < BLOCKS_PER_INODE
    requires k * 4096 + o < InodeLength(disk, ino)
    ensures Contents(disk, ino)[k * 4096 + o] == FileByte(disk, ino, k, o)
  {
    hide Blocks, InodeBlock, EntryCount, Entry, LittleEndian;
    var len := InodeLength(disk, ino);
    BlocksCover(len, k, o);
    BlocksAt(disk, ino, (len + 4096 - 1) / 4096, k, o);
  }

  lemma ContentsFlat(disk: seq<Byte>, ino: nat)
    requires WellFormed(disk) && ino < InodeCount(disk)
    ensures Flat(disk, ino, Contents(disk, ino))
  {
    hide Contents, BlockStart, FileByte;
    var file := Contents(disk, ino);
    forall k: nat, o: nat {:trigger FileByte(disk, ino, k, o)}
      | o < 4096 && k < BLOCKS_PER_INODE && k * 4096 + o < |file|
      ensures file[k * 4096 + o] == FileByte(disk, ino, k, o)
    {
      ContentsAt(disk, ino, k, o);
    }
  }

  /** Copies a file's bytes from `offset` on to `buf` at `at`. */
  method ReadData(disk: seq<Byte>, ino: nat, offset: nat, buf: array<Byte>, at: nat, length: nat)
    returns (bytesRead: nat)
    requires WellFormed(disk) && offset < TWO_32 && length < TWO_32
    requires at + |Slice(Contents(disk, ino), offset, length)| <= buf.Length
    modifies buf
    ensures bytesRead == |Slice(Contents(disk, ino), offset, length)|
    ensures Stored(old(buf[..]), buf[..], at, Slice(Contents(disk, ino), offset, length))
  {
    if ino >= InodeCount(disk) {
      return 0;
    }
    ContentsFlat(disk, ino);
    ghost var before, file := buf[..], Contents(disk, ino);
    bytesRead := WalkBlocks(disk, ino, file, offset, buf, at, length, |Slice(file, offset, length)|);
    SliceIsStored(before, buf[..], at, file, offset, length);
  }

  lemma SliceIsStored(before: seq<Byte>, after: seq<Byte>, at: nat, file: seq<Byte>, offset: nat, length: nat)
    requires |before| == |after| && at + |Slice(file, offset, length)| <= |before|
    requires forall k :: at <= k < at + |Slice(file, offset, length)| ==> after[k] == file[offset + k - at]
    requires forall k :: 0 <= k < |before| && !(at <= k < at + |Slice(file, offset, length)|) ==>
                           after[k] == before[k]
    ensures Stored(before, after, at, Slice(file, offset, length))
  {
  }

  /** One byte on: to the next block at the end of one. */
  method NextInFile(block: nat, offset: nat) returns (block': nat, offset': nat)
    requires offset < 4096
    ensures offset' < 4096 && block' * 4096 + offset' == block * 4096 + offset + 1
  {
    block', offset' := block, offset + 1;
    if offset' >= 4096 {
      block' := block' + 1;
      offset' := 0;
    }
  }

  /** The block walk, which stops copying after n bytes: at the requested length
      or at the end of the file.  A block is looked up when a byte of it is copied. */
  method WalkBlocks(disk: seq<Byte>, ino: nat, ghost file: seq<Byte>, offset: nat,
                    buf: array<Byte>, at: nat, length: nat, ghost n: nat)
    returns (bytesRead: nat)
    requires WellFormed(disk) && offset < TWO_32 && length < TWO_32
    requires ino < InodeCount(disk) && Flat(disk, ino, file)
    requires n <= length && (n == 0 || offset + n <= |file|) && (n < length ==> offset + n >= |file|)
    requires at + n <= buf.Length
    modifies buf
    ensures bytesRead == n
    ensures forall k :: at <= k < at + n ==> buf[k] == file[offset + k - at]
    ensures forall k :: 0 <= k < buf.Length && !(at <= k < at + n) ==> buf[k] == old(buf[k])
  {
    bytesRead := 0;
    var newOffset: nat := offset % 4096;
    var block: nat := offset / 4096;
    var i: nat := 0;
    while i < length
      invariant i <= length
      invariant bytesRead <= i && (bytesRead == 0 || offset + bytesRead <= |file|)
      invariant bytesRead < i ==> offset + bytesRead >= |file|
      invariant newOffset < 4096 && block * 4096 + newOffset == offset + bytesRead < TWO_32
      invariant forall k :: at <= k < at + bytesRead ==> buf[k] == file[offset + k - at]
      invariant forall k :: 0 <= k < buf.Length && !(at <= k < at + bytesRead) ==> buf[k] == old(buf[k])
    {
      if Plus32(bytesRead, offset) < InodeLength(disk, ino) {
        var b := FileByte(disk, ino, block, newOffset);
        assert i == bytesRead && b == file[offset + i];
        buf[at + i] := b;
        bytesRead := bytesRead + 1;
        block, newOffset := NextInFile(block, newOffset);
      }
      i := i + 1;
    }
  }

  /** Loading a program copies its whole file. */
  method Load(disk: seq<Byte>, entry: seq<Byte>, mem: array<Byte>, at: nat)
    requires WellFormed(disk) && |entry| == 64 && EntryInode(entry) < InodeCount(disk)
    requires at + |Contents(disk, EntryInode(entry))| <= mem.Length
    modifies mem
    ensures Stored(old(mem[..]), mem[..], at, Contents(disk, EntryInode(entry)))
  {
    var ino := EntryInode(entry);
    var len := InodeLength(disk, ino);
    assert Slice(Contents(disk, ino), 0, len) == Contents(disk, ino);
    var _ := ReadData(disk, ino, 0, mem, at, len);
  }

  /** Consecutive reads join up: reading a then b bytes reads a + b bytes. */
  lemma SlicesJoin(file: seq<Byte>, offset: nat, a: nat, b: nat)
    ensures var first := Slice(file, offset, a);
            first + Slice(file, offset + |first|, b) == Slice(file, offset, |first| + b)
  {
  }

  // ----- directory -----

  function Int8(b: Byte): int {
    if b < 128 then b else b as int - 256
  }

  /** Compares two C strings over at most n bytes; zero means they agree. */
  method Strncmp(s1: seq<Byte>, s2: seq<Byte>, n: nat) returns (r: int)
    requires NUL in s1 && NUL in s2
    ensures r == 0 <==> Take(CString(s1), n) == Take(CString(s2), n)
  {
    var i: nat := 0;
    while i < n
      invariant i <= n && i < |s1| && i < |s2| && NUL !in s1[..i] && s1[..i] == s2[..i]
    {
      if s1[i] != s2[i] || s1[i] == NUL {
        AgreementDecided(s1, s2, i, n);
        return Int8(s1[i]) - Int8(s2[i]);
      }
      AgreeFurther(s1, s2, i);
      i := i + 1;
    }
    CStringStarts(s1, n);
    CStringStarts(s2, n);
    return 0;
  }

  /** The names in the directory, entry by entry. */
  ghost function Names(disk: seq<Byte>): (r: seq<seq<Byte>>)
    requires WellFormed(disk)
    ensures |r| == EntryCount(disk)
  {
    seq(EntryCount(disk), i requires 0 <= i < EntryCount(disk) => EntryName(Entry(disk, i)))
  }

  /** The lowest index from i on that holds `name`. */
  ghost function FirstIndex(names: seq<seq<Byte>>, name: seq<Byte>, i: nat): (r: Option<nat>)
    ensures r.Some? ==> r.value < |names|
    decreases |names| - i
  {
    if i >= |names| then None
    else if names[i] == name then Some(i)
    else FirstIndex(names, name, i + 1)
  }

  /** What a lookup by name must return. */
  ghost function EntryNamed(disk: seq<Byte>, name: seq<Byte>): Option<seq<Byte>>
    requires WellFormed(disk)
  {
    match FirstIndex(Names(disk), name, 0)
    case Some(i) => Some(Entry(disk, i))
    case None => None
  }

  /** FirstIndex finds an index exactly when one holds the name, and no earlier one does. */
  lemma {:induction false} FirstIndexIsFirst(names: seq<seq<Byte>>, name: seq<Byte>, i: nat)
    ensures match FirstIndex(names, name, i)
            case Some(n) => i <= n < |names| && names[n] == name && forall k :: i <= k < n ==> names[k] != name
            case None => forall k :: i <= k < |names| ==> names[k] != name
    decreases |names| - i
  {
    if i < |names| && names[i] != name {
      FirstIndexIsFirst(names, name, i + 1);
    }
  }

  /** A lookup succeeds exactly when some entry has the name, and returns the first such entry. */
  lemma LookupFindsFirst(disk: seq<Byte>, name: seq<Byte>)
    requires WellFormed(disk)
    ensures EntryNamed(disk, name).Some? <==> name in Names(disk)
    ensures forall i :: 0 <= i < EntryCount(disk) && Names(disk)[i] == name && (forall k :: 0 <= k < i ==> Names(disk)[k] != name) ==>
                          EntryNamed(disk, name) == Some(Entry(disk, i))
  {
    FirstIndexIsFirst(Names(disk), name, 0);
  }

  /** When no two entries share a name, lookup by name undoes lookup by index. */
  lemma NameInvertsIndex(disk: seq<Byte>, i: nat)
    requires WellFormed(disk) && i < EntryCount(disk)
    requires forall j, k :: 0 <= j < k < EntryCount(disk) ==> Names(disk)[j] != Names(disk)[k]
    ensures EntryNamed(disk, EntryName(Entry(disk, i))) == Some(Entry(disk, i))
  {
    FirstIndexIsFirst(Names(disk), Names(disk)[i], 0);
  }

  method ReadDentryByName(disk: seq<Byte>, fname: seq<Byte>) returns (r: Option<seq<Byte>>)
    requires WellFormed(disk) && NUL in fname
    ensures r == EntryNamed(disk, CString(fname))
  {
    ghost var names, name := Names(disk), CString(fname);
    for i := 0 to EntryCount(disk)
      invariant FirstIndex(names, name, 0) == FirstIndex(names, name, i)
    {
      var curr := Entry(disk, i);
      var same := SameName(fname, curr[..NAME_LEN]);
      assert names[i] == EntryName(curr);
      if same {
        return Some(curr);
      }
    }
    return None;
  }

  /** Names are the same when their lengths are, and that many bytes agree. */
  method SameName(s1: seq<Byte>, s2: seq<Byte>) returns (same: bool)
    requires NUL in s1 && NUL in s2
    ensures same == (CString(s1) == CString(s2))
  {
    var len1 := Strlen(s1);
    var len2 := Strlen(s2);
    if len1 == len2 {
      var cmp := Strncmp(s1, s2, len2);
      return cmp == 0;
    }
    return false;
  }

  method ReadDentryByIndex(disk: seq<Byte>, index: nat) returns (r: Option<seq<Byte>>)
    requires WellFormed(disk)
    ensures r.Some? <==> index < EntryCount(disk)
    ensures r.Some? ==> r.value == Entry(disk, index)
  {
    if index < EntryCount(disk) {
      return Some(Entry(disk, index));
    }
    return None;
  }

  /** The bytes one directory read returns: an entry's name, cut to the request;
      nothing past the last entry. */
  ghost function NameRead(names: seq<seq<Byte>>, index: nat, length: nat): seq<Byte> {
    if index >= |names| then [] else Take(names[index], length)
  }

  /** What a directory read leaves in the buffer: the name, then a newline and a NUL
      that the count does not cover; nothing at all past the last entry. */
  ghost function NameStored(names: seq<seq<Byte>>, index: nat, length: nat): seq<Byte> {
    if index >= |names| then [] else Take(names[index], length) + [NEWLINE, NUL]
  }

  method ReadDirectoryEntry(disk: seq<Byte>, index: nat, buf: array<Byte>, at: nat, length: nat)
    returns (count: nat)
    requires WellFormed(disk)
    requires at + |NameStored(Names(disk), index, length)| <= buf.Length
    modifies buf
    ensures count == |NameRead(Names(disk), index, length)|
    ensures Stored(old(buf[..]), buf[..], at, NameStored(Names(disk), index, length))
    ensures index < EntryCount(disk) ==>
              Stored(old(buf[..]), buf[..], at, Take(Names(disk)[index], length) + [10, 0])
  {
    var entry := ReadDentryByIndex(disk, index);
    if entry.None? {
      return 0;
    }
    assert Names(disk)[index] == CString(entry.value[..NAME_LEN]);
    count := StoreName(entry.value[..NAME_LEN], buf, at, length);
  }

  method StoreName(fname: seq<Byte>, buf: array<Byte>, at: nat, length: nat) returns (count: nat)
    requires NUL in fname && at + |Take(CString(fname), length)| + 2 <= buf.Length
    modifies buf
    ensures count == |Take(CString(fname), length)|
    ensures Stored(old(buf[..]), buf[..], at, Take(CString(fname), length) + [NEWLINE, NUL])
  {
    ghost var before, name := buf[..], CString(fname);
    count := CopyName(fname, name, buf, at, length, |Take(name, length)|);
    NameIsStored(before, buf[..], at, name, count);
  }

  lemma NameIsStored(before: seq<Byte>, after: seq<Byte>, at: nat, name: seq<Byte>, n: nat)
    requires |before| == |after| && n <= |name| && at + n + 2 <= |before|
    requires after[at..at + n] == name[..n] && after[at + n] == NEWLINE && after[at + n + 1] == NUL
    requires after[..at] == before[..at] && after[at + n + 2..] == before[at + n + 2..]
    ensures Stored(before, after, at, name[..n] + [NEWLINE, NUL])
  {
    forall k | 0 <= k < |before| && !(at <= k < at + n + 2)
      ensures after[k] == before[k]
    {
      assert k < at ==> after[..at][k] == before[..at][k];
      assert k >= at ==> after[at + n + 2..][k - at - n - 2] == before[at + n + 2..][k - at - n - 2];
    }
  }

  /** Copies the first n bytes of a name, then a newline and a NUL. */
  method CopyName(fname: seq<Byte>, ghost name: seq<Byte>, buf: array<Byte>, at: nat, length: nat, ghost n: nat)
    returns (count: nat)
    requires NUL in fname && name == CString(fname)
    requires n <= length && n <= |name| && (n == length || n == |name|)
    requires at + n + 2 <= buf.Length
    modifies buf
    ensures count == n
    ensures buf[at..at + n] == name[..n] && buf[at + n] == NEWLINE && buf[at + n + 1] == NUL
    ensures buf[..at] == old(buf[..at]) && buf[at + n + 2..] == old(buf[at + n + 2..])
  {
    count := 0;
    var len := Strlen(fname);
    for i := 0 to len
      invariant count <= n && count <= i && (count < i ==> count == length)
      invariant forall k :: at <= k < at + count ==> buf[k] == name[k - at]
      invariant forall k :: 0 <= k < buf.Length && !(at <= k < at + count) ==> buf[k] == old(buf[k])
    {
      if count < length {
        buf[at + count] := fname[i];
        count := count + 1;
      }
    }
    buf[at + count] := NEWLINE;
    buf[at + count + 1] := NUL;
  }
}
