/** File system images put together from entries, inodes and data blocks, and read back. */
module Image {
  import opened Bytes
  import opened FileSystem
  import opened SysCalls

  // ----- laying out bytes -----

  function Zeros(n: nat): (z: seq<Byte>)
    ensures |z| == n
  {
    seq(n, _ => 0)
  }

  /** A 32-bit value, least significant byte first. */
  function LeBytes(v: nat): (b: seq<Byte>)
    ensures |b| == 4
  {
    [v % 256, v / 256 % 256, v / 0x10000 % 256, v / 0x1000000 % 256]
  }

  lemma LeReads(d: seq<Byte>, off: nat, v: nat)
    requires off + 4 <= |d| && v < TWO_32 && d[off..off + 4] == LeBytes(v)
    ensures Le32(d, off) == v
  {
    assert d[off] == LeBytes(v)[0] && d[off + 1] == LeBytes(v)[1];
    assert d[off + 2] == LeBytes(v)[2] && d[off + 3] == LeBytes(v)[3];
    assert LittleEndian(d, off + 4, 0) == 0;
    assert LittleEndian(d, off + 3, 1) == v / 0x1000000 % 256;
    assert LittleEndian(d, off + 2, 2) == v / 0x10000 % 256 + 256 * (v / 0x1000000 % 256);
    assert LittleEndian(d, off + 1, 3) == v / 256 % 256 + 256 * (v / 0x10000 % 256 + 256 * (v / 0x1000000 % 256));
    DigitsOf(v);
  }

  lemma DigitsOf(v: nat)
    requires v < TWO_32
    ensures v == v % 256 + 256 * (v / 256 % 256 + 256 * (v / 0x10000 % 256 + 256 * (v / 0x1000000 % 256)))
  {
    assert v / 0x10000 == v / 256 / 256 && v / 0x1000000 == v / 256 / 256 / 256;
  }

  function Concat(parts: seq<seq<Byte>>): seq<Byte> {
    if parts == [] then [] else parts[0] + Concat(parts[1..])
  }

  ghost predicate AllOf(parts: seq<seq<Byte>>, m: nat) {
    forall i :: 0 <= i < |parts| ==> |parts[i]| == m
  }

  lemma {:induction false} ConcatSize(parts: seq<seq<Byte>>, m: nat)
    requires AllOf(parts, m)
    ensures |Concat(parts)| == |parts| * m
  {
    if parts != [] {
      ConcatSize(parts[1..], m);
      assert |parts| * m == m + (|parts| - 1) * m;
    }
  }

  lemma {:induction false} ConcatAt(parts: seq<seq<Byte>>, m: nat, i: nat)
    requires AllOf(parts, m) && i < |parts|
    ensures i * m + m <= |Concat(parts)| && Concat(parts)[i * m..i * m + m] == parts[i]
  {
    ConcatSize(parts, m);
    if i > 0 {
      ConcatAt(parts[1..], m, i - 1);
      assert i * m == m + (i - 1) * m;
    } else {
      assert 0 * m == 0;
    }
  }

  // ----- the image -----

  datatype DirEntry = DirEntry(name: seq<Byte>, ftype: nat, inode: nat)

  /** The length of a file and the numbers of its data blocks. */
  datatype Node = Node(length: nat, blocks: seq<nat>)

  datatype Parts = Parts(entries: seq<DirEntry>, nodes: seq<Node>, blocks: seq<seq<Byte>>)

  ghost predicate EntryOk(e: DirEntry) {
    |e.name| <= 31 && 0 !in e.name && e.ftype < TWO_32 && e.inode < TWO_32
  }

  ghost predicate NodeOk(n: Node, blocks: nat) {
    && |n.blocks| <= 1023 && n.length <= |n.blocks| * 4096
    && forall k :: 0 <= k < |n.blocks| ==> n.blocks[k] < blocks
  }

  ghost predicate PartsOk(p: Parts) {
    && |p.entries| <= 63 && |p.nodes| < TWO_32 && |p.blocks| < TWO_32
    && (forall i :: 0 <= i < |p.entries| ==> EntryOk(p.entries[i]))
    && (forall i :: 0 <= i < |p.nodes| ==> NodeOk(p.nodes[i], |p.blocks|))
    && AllOf(p.blocks, 4096)
  }

  /** 32 bytes of name, the type, the inode number, 24 bytes of padding. */
  function EntryBytes(e: DirEntry): (b: seq<Byte>)
    requires |e.name| <= 31
    ensures |b| == 64
  {
    e.name + Zeros(32 - |e.name|) + LeBytes(e.ftype) + LeBytes(e.inode) + Zeros(24)
  }

  function AllEntryBytes(entries: seq<DirEntry>): (b: seq<seq<Byte>>)
    requires forall i :: 0 <= i < |entries| ==> |entries[i].name| <= 31
    ensures |b| == |entries| && AllOf(b, 64)
  {
    seq(|entries|, i requires 0 <= i < |entries| => EntryBytes(entries[i]))
  }

  function Words(ws: seq<nat>): (b: seq<seq<Byte>>)
    ensures |b| == |ws| && AllOf(b, 4)
  {
    seq(|ws|, i requires 0 <= i < |ws| => LeBytes(ws[i]))
  }

  /** The length, 1023 block numbers. */
  function NodeBytes(n: Node): (b: seq<Byte>)
    requires |n.blocks| <= 1023
    ensures |b| == 4096
  {
    ConcatSize(Words(n.blocks), 4);
    LeBytes(n.length) + Concat(Words(n.blocks)) + Zeros(4092 - 4 * |n.blocks|)
  }

  function AllNodeBytes(nodes: seq<Node>): (b: seq<seq<Byte>>)
    requires forall i :: 0 <= i < |nodes| ==> |nodes[i].blocks| <= 1023
    ensures |b| == |nodes| && AllOf(b, 4096)
  {
    seq(|nodes|, i requires 0 <= i < |nodes| => NodeBytes(nodes[i]))
  }

  /** Three counts, 52 bytes of padding, room for 63 entries. */
  function BootBytes(p: Parts): (b: seq<Byte>)
    requires PartsOk(p)
    ensures |b| == 4096
  {
    ConcatSize(AllEntryBytes(p.entries), 64);
    LeBytes(|p.entries|) + LeBytes(|p.nodes|) + LeBytes(|p.blocks|) + Zeros(52)
    + Concat(AllEntryBytes(p.entries)) + Zeros(4032 - 64 * |p.entries|)
  }

  function Assembled(p: Parts): (disk: seq<Byte>)
    requires PartsOk(p)
    ensures |disk| == (1 + |p.nodes| + |p.blocks|) * 4096
  {
    ConcatSize(AllNodeBytes(p.nodes), 4096);
    ConcatSize(p.blocks, 4096);
    BootBytes(p) + Concat(AllNodeBytes(p.nodes)) + Concat(p.blocks)
  }

  /** A file: its blocks in order, cut at its length. */
  function FileBlocks(p: Parts, n: Node): (b: seq<seq<Byte>>)
    requires AllOf(p.blocks, 4096) && NodeOk(n, |p.blocks|)
    ensures |b| == |n.blocks| && AllOf(b, 4096)
  {
    seq(|n.blocks|, k requires 0 <= k < |n.blocks| => p.blocks[n.blocks[k]])
  }

  function FileOf(p: Parts, n: Node): (f: seq<Byte>)
    requires AllOf(p.blocks, 4096) && NodeOk(n, |p.blocks|)
    ensures |f| == n.length
  {
    ConcatSize(FileBlocks(p, n), 4096);
    Concat(FileBlocks(p, n))[..n.length]
  }

  // ----- reading it back -----

  lemma Counts(p: Parts)
    requires PartsOk(p)
    ensures var disk := Assembled(p);
            EntryCount(disk) == |p.entries| && InodeCount(disk) == |p.nodes| && BlockCount(disk) == |p.blocks|
  {
    var disk := Assembled(p);
    assert disk[..4096] == BootBytes(p);
    assert disk[0..4] == BootBytes(p)[0..4] == LeBytes(|p.entries|);
    assert disk[4..8] == BootBytes(p)[4..8] == LeBytes(|p.nodes|);
    assert disk[8..12] == BootBytes(p)[8..12] == LeBytes(|p.blocks|);
    LeReads(disk, 0, |p.entries|);
    LeReads(disk, 4, |p.nodes|);
    LeReads(disk, 8, |p.blocks|);
  }

  lemma EntryAt(p: Parts, i: nat)
    requires PartsOk(p) && i < |p.entries|
    ensures FileSystem.Entry(Assembled(p), i) == EntryBytes(p.entries[i])
  {
    var at := 64 + 64 * i;
    EntryInBoot(p, i);
    hide BootBytes, Concat;
    assert Assembled(p)[..4096][at..at + 64] == Assembled(p)[at..at + 64];
    assert Assembled(p)[..4096] == BootBytes(p);
  }

  lemma EntryInBoot(p: Parts, i: nat)
    requires PartsOk(p) && i < |p.entries|
    ensures BootBytes(p)[64 + 64 * i..128 + 64 * i] == EntryBytes(p.entries[i])
  {
    var es := AllEntryBytes(p.entries);
    ConcatAt(es, 64, i);
    ConcatSize(es, 64);
    hide Concat;
    assert BootBytes(p)[64 + 64 * i..128 + 64 * i] == Concat(es)[64 * i..64 * i + 64];
  }

  lemma EntryReads(e: DirEntry)
    requires EntryOk(e)
    ensures var b := EntryBytes(e);
            0 in b[..32] && EntryName(b) == e.name && EntryType(b) == e.ftype && EntryInode(b) == e.inode
  {
    var b := EntryBytes(e);
    assert b[..32] == e.name + Zeros(32 - |e.name|);
    assert b[..32][|e.name|] == 0 && b[..32][..|e.name|] == e.name;
    CStringIs(b[..32], |e.name|);
    assert b[32..36] == LeBytes(e.ftype) && b[36..40] == LeBytes(e.inode);
    LeReads(b, 32, e.ftype);
    LeReads(b, 36, e.inode);
  }

  lemma NodeAt(p: Parts, ino: nat)
    requires PartsOk(p) && ino < |p.nodes|
    ensures (ino + 2) * 4096 <= |Assembled(p)|
    ensures Assembled(p)[(ino + 1) * 4096..(ino + 2) * 4096] == NodeBytes(p.nodes[ino])
  {
    var disk, ns := Assembled(p), AllNodeBytes(p.nodes);
    ConcatSize(ns, 4096);
    ConcatAt(ns, 4096, ino);
    var at := ino * 4096;
    assert disk[4096..4096 + |Concat(ns)|] == Concat(ns);
    assert disk[4096 + at..4096 + at + 4096] == Concat(ns)[at..at + 4096];
  }

  /** What stands at a place of an inode stands in the image. */
  lemma WordIn(disk: seq<Byte>, at: nat, node: seq<Byte>, off: nat, v: nat)
    requires at + 4096 <= |disk| && disk[at..at + 4096] == node && off + 4 <= 4096 && v < TWO_32
    requires node[off..off + 4] == LeBytes(v)
    ensures Le32(disk, at + off) == v
  {
    var got := disk[at + off..at + off + 4];
    forall t | 0 <= t < 4
      ensures got[t] == node[off..off + 4][t]
    {
      assert got[t] == disk[at + (off + t)] == disk[at..at + 4096][off + t];
    }
    assert got == LeBytes(v);
    LeReads(disk, at + off, v);
  }

  lemma NodeReads(p: Parts, ino: nat)
    requires PartsOk(p) && ino < |p.nodes|
    ensures (ino + 2) * 4096 <= |Assembled(p)| && InodeLength(Assembled(p), ino) == p.nodes[ino].length
    ensures forall k :: 0 <= k < |p.nodes[ino].blocks| ==> InodeBlock(Assembled(p), ino, k) == p.nodes[ino].blocks[k]
  {
    var disk, n := Assembled(p), p.nodes[ino];
    hide Assembled;
    NodeAt(p, ino);
    var b, at := NodeBytes(n), (ino + 1) * 4096;
    assert NodeOk(n, |p.blocks|);
    assert b[0..4] == LeBytes(n.length);
    WordIn(disk, at, b, 0, n.length);
    forall k | 0 <= k < |n.blocks|
      ensures InodeBlock(disk, ino, k) == n.blocks[k]
    {
      NodeWord(n, k);
      WordIn(disk, at, b, 4 + 4 * k, n.blocks[k]);
    }
  }

  lemma NodeWord(n: Node, k: nat)
    requires |n.blocks| <= 1023 && k < |n.blocks|
    ensures NodeBytes(n)[4 + 4 * k..8 + 4 * k] == LeBytes(n.blocks[k])
  {
    var ws := Words(n.blocks);
    ConcatSize(ws, 4);
    ConcatAt(ws, 4, k);
    assert NodeBytes(n)[4 + 4 * k..8 + 4 * k] == Concat(ws)[4 * k..4 * k + 4];
  }

  /** An image put together like this is one the kernel can mount. */
  lemma AssembledIsWellFormed(p: Parts)
    requires PartsOk(p)
    ensures WellFormed(Assembled(p))
  {
    var disk := Assembled(p);
    Counts(p);
    hide Assembled;
    forall i | 0 <= i < EntryCount(disk)
      ensures 0 in FileSystem.Entry(disk, i)[..32]
    {
      EntryAt(p, i);
      EntryReads(p.entries[i]);
    }
    forall ino | 0 <= ino < InodeCount(disk)
      ensures InodeLength(disk, ino) <= 1023 * 4096
      ensures forall k :: 0 <= k < 1023 && k * 4096 < InodeLength(disk, ino) ==> InodeBlock(disk, ino, k) < BlockCount(disk)
    {
      NodeReads(p, ino);
      assert NodeOk(p.nodes[ino], |p.blocks|);
    }
  }

  /** The bytes of a file are bytes of its data blocks, and of no other part of the image. */
  lemma DataIsData(disk: seq<Byte>, boot: seq<Byte>, inodes: seq<Byte>, data: seq<Byte>, ino: nat, k: nat, o: nat)
    requires WellFormed(disk) && disk == boot + inodes + data
    requires |boot| == 4096 && |inodes| == 4096 * InodeCount(disk)
    requires ino < InodeCount(disk) && o < 4096 && k < 1023 && k * 4096 + o < InodeLength(disk, ino)
    ensures 4096 * InodeBlock(disk, ino, k) + o < |data|
    ensures Contents(disk, ino)[k * 4096 + o] == data[4096 * InodeBlock(disk, ino, k) + o]
  {
    ContentsAt(disk, ino, k, o);
  }

  /** So is every byte that a read from the start of the file leaves in the buffer. */
  lemma StoredIsData(disk: seq<Byte>, boot: seq<Byte>, inodes: seq<Byte>, data: seq<Byte>, ino: nat, k: nat, o: nat,
                     was: seq<Byte>, now: seq<Byte>, at: nat, length: nat)
    requires WellFormed(disk) && disk == boot + inodes + data
    requires |boot| == 4096 && |inodes| == 4096 * InodeCount(disk)
    requires ino < InodeCount(disk) && o < 4096 && k < 1023 && k * 4096 + o < InodeLength(disk, ino)
    requires k * 4096 + o < length && Stored(was, now, at, Slice(Contents(disk, ino), 0, length))
    ensures 4096 * InodeBlock(disk, ino, k) + o < |data| && at + k * 4096 + o < |now|
    ensures now[at + k * 4096 + o] == data[4096 * InodeBlock(disk, ino, k) + o]
  {
    hide WellFormed, Contents, InodeBlock, InodeLength, InodeCount;
    DataIsData(disk, boot, inodes, data, ino, k, o);
    var j := k * 4096 + o;
    assert now[at + j] == Slice(Contents(disk, ino), 0, length)[j];
  }

  /** The two parts of an image before its data. */
  lemma PartsBefore(p: Parts) returns (boot: seq<Byte>, inodes: seq<Byte>)
    requires PartsOk(p)
    ensures Assembled(p) == boot + inodes + Concat(p.blocks)
    ensures |boot| == 4096 && |inodes| == 4096 * |p.nodes| && InodeCount(Assembled(p)) == |p.nodes|
  {
    Counts(p);
    ConcatSize(AllNodeBytes(p.nodes), 4096);
    boot, inodes := BootBytes(p), Concat(AllNodeBytes(p.nodes));
  }

  lemma ByteReads(p: Parts, ino: nat, k: nat, o: nat)
    requires PartsOk(p) && ino < |p.nodes| && o < 4096 && k * 4096 + o < p.nodes[ino].length
    requires WellFormed(Assembled(p)) && |Contents(Assembled(p), ino)| == p.nodes[ino].length
    ensures Contents(Assembled(p), ino)[k * 4096 + o] == FileOf(p, p.nodes[ino])[k * 4096 + o]
  {
    hide PartsOk, NodeOk, Assembled, WellFormed, Contents, FileOf;
    ByteOfNode(p, p.nodes[ino], ino, k, o);
    ByteOfDisk(p, ino, k, o);
  }

  lemma ByteOfNode(p: Parts, n: Node, ino: nat, k: nat, o: nat)
    requires PartsOk(p) && ino < |p.nodes| && n == p.nodes[ino] && o < 4096 && k * 4096 + o < n.length
    ensures NodeOk(n, |p.blocks|) && k < |n.blocks| && n.blocks[k] < |p.blocks| && |p.blocks[n.blocks[k]]| == 4096
    ensures FileOf(p, n)[k * 4096 + o] == p.blocks[n.blocks[k]][o]
  {
    hide Concat;
    InChunk(FileBlocks(p, n), k, o);
  }

  lemma ByteOfDisk(p: Parts, ino: nat, k: nat, o: nat)
    requires PartsOk(p) && ino < |p.nodes| && o < 4096 && k * 4096 + o < p.nodes[ino].length
    requires WellFormed(Assembled(p)) && |Contents(Assembled(p), ino)| == p.nodes[ino].length
    requires k < |p.nodes[ino].blocks| && p.nodes[ino].blocks[k] < |p.blocks| && |p.blocks[p.nodes[ino].blocks[k]]| == 4096
    ensures Contents(Assembled(p), ino)[k * 4096 + o] == p.blocks[p.nodes[ino].blocks[k]][o]
  {
    var disk, b := Assembled(p), p.nodes[ino].blocks[k];
    var boot, inodes := PartsBefore(p);
    NodeReads(p, ino);
    NodeFits(p, ino);
    hide *;
    DataIsData(disk, boot, inodes, Concat(p.blocks), ino, k, o);
    InChunk(p.blocks, b, o);
  }

  lemma NodeFits(p: Parts, ino: nat)
    requires PartsOk(p) && ino < |p.nodes|
    ensures |p.nodes[ino].blocks| <= 1023 && AllOf(p.blocks, 4096)
  {
    assert NodeOk(p.nodes[ino], |p.blocks|);
  }

  lemma InChunk(parts: seq<seq<Byte>>, i: nat, o: nat)
    requires AllOf(parts, 4096) && i < |parts| && o < 4096
    ensures i * 4096 + o < |Concat(parts)| && Concat(parts)[i * 4096 + o] == parts[i][o]
  {
    ConcatAt(parts, 4096, i);
    assert Concat(parts)[i * 4096..i * 4096 + 4096][o] == Concat(parts)[i * 4096 + o];
  }

  /** What was put in is read back: the names, types and inodes of the entries in order, and
      every file's bytes. */
  lemma ImageReadsBack(p: Parts)
    requires PartsOk(p)
    ensures var disk := Assembled(p);
            && WellFormed(disk) && EntryCount(disk) == |p.entries| == |Names(disk)|
            && (forall i :: 0 <= i < |p.entries| ==>
                 && Names(disk)[i] == p.entries[i].name
                 && EntryType(FileSystem.Entry(disk, i)) == p.entries[i].ftype
                 && EntryInode(FileSystem.Entry(disk, i)) == p.entries[i].inode)
            && forall ino :: 0 <= ino < |p.nodes| ==> Contents(disk, ino) == FileOf(p, p.nodes[ino])
  {
    var disk := Assembled(p);
    Counts(p);
    AssembledIsWellFormed(p);
    hide Assembled, WellFormed;
    forall i | 0 <= i < |p.entries|
      ensures Names(disk)[i] == p.entries[i].name
      ensures EntryType(FileSystem.Entry(disk, i)) == p.entries[i].ftype
      ensures EntryInode(FileSystem.Entry(disk, i)) == p.entries[i].inode
    {
      EntryAt(p, i);
      EntryReads(p.entries[i]);
    }
    forall ino | 0 <= ino < |p.nodes|
      ensures Contents(disk, ino) == FileOf(p, p.nodes[ino])
    {
      FileReads(p, ino);
    }
  }

  lemma SizeReads(p: Parts, ino: nat)
    requires PartsOk(p) && ino < |p.nodes| && WellFormed(Assembled(p))
    ensures NodeOk(p.nodes[ino], |p.blocks|) && AllOf(p.blocks, 4096)
    ensures |Contents(Assembled(p), ino)| == |FileOf(p, p.nodes[ino])| == p.nodes[ino].length
  {
    hide FileOf, Contents;
    Counts(p);
    NodeReads(p, ino);
  }

  lemma ByteAt(p: Parts, ino: nat, j: nat)
    requires PartsOk(p) && ino < |p.nodes| && j < p.nodes[ino].length && WellFormed(Assembled(p))
    requires |Contents(Assembled(p), ino)| == p.nodes[ino].length
    requires NodeOk(p.nodes[ino], |p.blocks|) && AllOf(p.blocks, 4096)
    ensures Contents(Assembled(p), ino)[j] == FileOf(p, p.nodes[ino])[j]
  {
    hide *;
    assert j == j / 4096 * 4096 + j % 4096;
    ByteReads(p, ino, j / 4096, j % 4096);
  }

  lemma FileReads(p: Parts, ino: nat)
    requires PartsOk(p) && ino < |p.nodes| && WellFormed(Assembled(p))
    ensures Contents(Assembled(p), ino) == FileOf(p, p.nodes[ino])
  {
    SizeReads(p, ino);
    hide *;
    forall j | 0 <= j < p.nodes[ino].length
      ensures Contents(Assembled(p), ino)[j] == FileOf(p, p.nodes[ino])[j]
    {
      ByteAt(p, ino, j);
    }
  }

  /** Entry i is the first of its name. */
  ghost predicate FirstOfName(p: Parts, i: nat) {
    i < |p.entries| && forall j :: 0 <= j < i ==> p.entries[j].name != p.entries[i].name
  }

  /** A lookup by name gets the first entry of that name: type 0 is the clock, 1 the
      directory, 2 a file and 3 a terminal; a file's bytes are those of the inode named. */
  lemma ImageLookup(p: Parts, i: nat)
    requires PartsOk(p) && FirstOfName(p, i) && WellFormed(Assembled(p))
    ensures var disk, e, found := Assembled(p), p.entries[i], EntryNamed(Assembled(p), p.entries[i].name);
            && found.Some? && |found.value| == 64
            && (e.ftype == 0 ==> DeviceOf(EntryType(found.value)) == Some(Clock))
            && (e.ftype == 1 ==> DeviceOf(EntryType(found.value)) == Some(Directory))
            && (e.ftype == 2 ==> DeviceOf(EntryType(found.value)) == Some(File))
            && (e.ftype == 3 ==> DeviceOf(EntryType(found.value)) == Some(Terminal))
            && (e.ftype > 3 ==> DeviceOf(EntryType(found.value)) == None)
            && (e.inode < |p.nodes| ==> Contents(disk, EntryInode(found.value)) == FileOf(p, p.nodes[e.inode]))
  {
    var disk := Assembled(p);
    ImageReadsBack(p);
    LookupFindsFirst(disk, p.entries[i].name);
    assert forall j :: 0 <= j <= i ==> Names(disk)[j] == p.entries[j].name;
  }

  /** The directory lists the names of the entries in order, cut to the request. */
  lemma ImageLists(p: Parts, i: nat, n: nat)
    requires PartsOk(p) && WellFormed(Assembled(p))
    ensures NameRead(Names(Assembled(p)), i, n)
            == if i >= |p.entries| then [] else if n <= |p.entries[i].name| then p.entries[i].name[..n] else p.entries[i].name
  {
    ImageReadsBack(p);
  }
}
