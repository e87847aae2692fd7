/**
 FATX volumes (fs/fatx/BootFATX.c): where things lie, cluster chains, reading.
 */
module Fatx {
  import opened Arith
  import opened Types
  import opened AtaDrive

  const SECTOR: nat := 512
  const HEADER_SIZE: nat := 0x1000
  const TABLE_BLOCK: nat := 4096
  const CLUSTER_SIZE: nat := 0x4000
  const CLUSTER_SECTORS: nat := 32
  const ENTRY_SIZE: nat := 0x40
  const CLUSTER_ENTRIES: nat := 256
  const FILENAME_MAX: nat := 42
  const ROOT_CLUSTER: nat := 1
  const ATTR_DIRECTORY: nat := 0x10

  // ---- bytes -------------------------------------------------------------

  /** The bytes of consecutive sectors. */
  function Flat(ss: seq<Sector>): (r: seq<Octet>)
    ensures |r| == SECTOR * |ss|
    ensures forall i :: 0 <= i < |r| ==> r[i] == ss[i / SECTOR][i % SECTOR]
  {
    seq(SECTOR * |ss|, i requires 0 <= i < SECTOR * |ss| => ss[i / SECTOR][i % SECTOR])
  }

  function Word16(s: seq<Octet>, at: nat): nat
    requires at + 2 <= |s|
  {
    var b0: int, b1: int := s[at], s[at + 1];
    b0 + 0x100 * b1
  }

  function Word32(s: seq<Octet>, at: nat): (r: nat)
    requires at + 4 <= |s|
    ensures r < 0x1_0000_0000
  {
    var b0: int, b1: int, b2: int, b3: int := s[at], s[at + 1], s[at + 2], s[at + 3];
    b0 + 0x100 * b1 + 0x1_0000 * b2 + 0x100_0000 * b3
  }

  /** A 32-bit word read as a C int. */
  function AsInt(v: nat): int {
    if v < 0x8000_0000 then v else v - 0x1_0000_0000
  }

  // ---- layout ------------------------------------------------------------

  /** FATXPartition; `table` is the cluster chain map as bytes, `cluster1` the
      byte address of cluster 1 inside the partition. */
  datatype Partition = Partition(
    start: nat, clusterCount: nat, entrySize: nat, table: seq<Octet>, cluster1: nat)

  function ClusterCount(size: nat): nat {
    size / CLUSTER_SIZE
  }

  function EntrySize(clusterCount: nat): nat {
    if clusterCount >= 0xFFF4 then 4 else 2
  }

  function RoundedUp(n: nat): (r: nat)
    ensures n <= r < n + TABLE_BLOCK && r % TABLE_BLOCK == 0
  {
    if n % TABLE_BLOCK != 0 then (n / TABLE_BLOCK + 1) * TABLE_BLOCK else n
  }

  /** Bytes the opener takes the chain map to occupy. */
  function TableSize(size: nat): (r: nat)
    ensures r % TABLE_BLOCK == 0
  {
    RoundedUp(ClusterCount(size) * EntrySize(ClusterCount(size)))
  }

  /** The first sector of a cluster. */
  function ClusterLba(p: Partition, c: int): int {
    p.start + p.cluster1 / SECTOR + (c - 1) * CLUSTER_SECTORS
  }

  /** The partition is laid out as OpenFATXPartition does. */
  predicate Mounted(p: Partition) {
    && (p.entrySize == 2 || p.entrySize == 4) && p.cluster1 % SECTOR == 0
    && p.clusterCount * p.entrySize <= |p.table|
  }

  /** A cluster with an entry in the chain map and its data on the disk. */
  predicate InRange(p: Partition, disk: Disk, c: int) {
    1 <= c < p.clusterCount && ClusterLba(p, c) + CLUSTER_SECTORS <= |disk|
  }

  function ClusterData(p: Partition, disk: Disk, c: nat): (r: seq<Octet>)
    requires Mounted(p) && InRange(p, disk, c)
    ensures |r| == CLUSTER_SIZE
  {
    Flat(disk[ClusterLba(p, c)..ClusterLba(p, c) + CLUSTER_SECTORS])
  }

  // ---- reading -----------------------------------------------------------

  /** The byte at `offset` behind the start of a sector. */
  function ByteAt(disk: Disk, sector: nat, offset: nat): Octet
    requires sector + offset / SECTOR < |disk|
  {
    disk[sector + offset / SECTOR][offset % SECTOR]
  }

  /** FATXRawRead: from an address inside a sector it takes the bytes at the
      beginning of that sector instead, and the right ones from the next on. */
  method RawRead(disk: Disk, sector: nat, offset: nat, len: nat) returns (buf: seq<Octet>)
    requires offset % SECTOR == 0 || len >= SECTOR
    requires sector + (offset + len + SECTOR - 1) / SECTOR <= |disk|
    ensures |buf| == len
    ensures forall i :: 0 <= i < len && (offset % SECTOR == 0 || i >= SECTOR - offset % SECTOR) ==>
      buf[i] == ByteAt(disk, sector, offset + i)
    ensures offset % SECTOR != 0 ==>
      forall i :: 0 <= i < SECTOR - offset % SECTOR ==> buf[i] == ByteAt(disk, sector, offset - offset % SECTOR + i)
  {
    hide ByteAt;
    var skip := offset % SECTOR;
    buf := [];
    if skip != 0 {
      SectorBytes(disk, sector, offset - skip);
      buf := disk[sector + offset / SECTOR][..SECTOR - skip];
    }
    var rest := ReadFrom(disk, sector, offset + |buf|, len - |buf|);
    buf := buf + rest;
  }

  /** The loop from a sector address on. */
  method ReadFrom(disk: Disk, sector: nat, offset: nat, len: nat) returns (buf: seq<Octet>)
    requires offset % SECTOR == 0 && sector + (offset + len + SECTOR - 1) / SECTOR <= |disk|
    ensures |buf| == len && forall i :: 0 <= i < len ==> buf[i] == ByteAt(disk, sector, offset + i)
  {
    hide ByteAt;
    var lba: nat, left: nat := sector + offset / SECTOR, len;
    buf := [];
    while left > 0
      invariant |buf| + left == len && (left > 0 ==> |buf| % SECTOR == 0)
      invariant left > 0 ==> lba == sector + (offset + |buf|) / SECTOR
      invariant forall i :: 0 <= i < |buf| ==> buf[i] == ByteAt(disk, sector, offset + i)
    {
      var n := if left < SECTOR then left else SECTOR;
      SectorBytes(disk, sector, offset + |buf|);
      buf := buf + disk[lba][..n];
      left := left - n;
      lba := lba + 1;
    }
  }

  lemma SectorBytes(disk: Disk, sector: nat, offset: nat)
    requires offset % SECTOR == 0 && sector + offset / SECTOR < |disk|
    ensures SectorIs(disk[sector + offset / SECTOR], disk, sector, offset)
  {
    var s := disk[sector + offset / SECTOR];
    forall i | 0 <= i < SECTOR ensures sector + (offset + i) / SECTOR < |disk| && s[i] == ByteAt(disk, sector, offset + i) {
      assert (offset + i) / SECTOR == offset / SECTOR && (offset + i) % SECTOR == i;
    }
  }

  predicate SectorIs(s: Sector, disk: Disk, sector: nat, offset: nat) {
    forall i :: 0 <= i < SECTOR ==> sector + (offset + i) / SECTOR < |disk| && s[i] == ByteAt(disk, sector, offset + i)
  }

  /** Whole sectors. */
  method ReadSectors(disk: Disk, sector: nat, offset: nat, len: nat) returns (buf: seq<Octet>)
    requires offset % SECTOR == 0 && len % SECTOR == 0 && sector + (offset + len) / SECTOR <= |disk|
    ensures offset / SECTOR + len / SECTOR == (offset + len) / SECTOR
    ensures buf == Flat(disk[sector + offset / SECTOR..sector + (offset + len) / SECTOR])
  {
    hide Flat;
    buf := RawRead(disk, sector, offset, len);
    ghost var ss := disk[sector + offset / SECTOR..sector + (offset + len) / SECTOR];
    forall i | 0 <= i < len ensures i < |Flat(ss)| && buf[i] == Flat(ss)[i] {
      assert (offset + i) / SECTOR == offset / SECTOR + i / SECTOR && (offset + i) % SECTOR == i % SECTOR;
    }
  }

  /** LoadFATXCluster */
  method LoadCluster(p: Partition, disk: Disk, c: nat) returns (data: seq<Octet>)
    requires Mounted(p) && InRange(p, disk, c)
    ensures data == ClusterData(p, disk, c)
  {
    hide Flat;
    var address := p.cluster1 + (c - 1) * CLUSTER_SIZE;
    data := ReadSectors(disk, p.start, address, CLUSTER_SIZE);
  }

  /** OpenFATXPartition */
  function Opened(disk: Disk, start: nat, size: nat): (r: Option<Partition>)
    requires start + (HEADER_SIZE + TableSize(size)) / SECTOR <= |disk|
  {
    if Word32(Flat(disk[start..start + HEADER_SIZE / SECTOR]), 0) != 0x58544146 then None
    else
      var lba := start + HEADER_SIZE / SECTOR;
      Some(Partition(start, ClusterCount(size), EntrySize(ClusterCount(size)),
                     Flat(disk[lba..lba + TableSize(size) / SECTOR]), HEADER_SIZE + TableSize(size)))
  }

  lemma WholeSectors(n: nat, k: nat)
    requires n == SECTOR * k
    ensures n / SECTOR == k && n % SECTOR == 0
  {
  }

  /** The table fills whole sectors behind the header's. */
  lemma TableSectors(size: nat)
    ensures TableSize(size) / SECTOR * SECTOR == TableSize(size)
    ensures (HEADER_SIZE + TableSize(size)) / SECTOR == HEADER_SIZE / SECTOR + TableSize(size) / SECTOR
  {
    hide TableSize;
    var k := TableSize(size) / TABLE_BLOCK;
    assert TableSize(size) == TABLE_BLOCK * k;
    WholeSectors(TableSize(size), TABLE_BLOCK / SECTOR * k);
    WholeSectors(HEADER_SIZE + TableSize(size), HEADER_SIZE / SECTOR + TABLE_BLOCK / SECTOR * k);
  }

  /** Every partition that opens is laid out properly. */
  lemma OpenedIsMounted(disk: Disk, start: nat, size: nat)
    requires start + (HEADER_SIZE + TableSize(size)) / SECTOR <= |disk| && Opened(disk, start, size).Some?
    ensures var p := Opened(disk, start, size).value;
      Mounted(p) && |p.table| == TableSize(size) && p.clusterCount == ClusterCount(size)
  {
    TableSectors(size);
  }

  /** A partition opens if and only if it begins with "FATX". Its clusters have
      16KB; the map behind the 4KB header has 2-byte entries below 65524 clusters
      and 4-byte entries from there on, and fills whole 4KB blocks. */
  lemma OpenedExactly(disk: Disk, start: nat, size: nat)
    requires start + (HEADER_SIZE + TableSize(size)) / SECTOR <= |disk|
    ensures start < |disk| && (Opened(disk, start, size).Some? <==> disk[start][..4] == [0x46, 0x41, 0x54, 0x58])
    ensures Opened(disk, start, size).Some? ==>
      var p := Opened(disk, start, size).value;
      var used := p.clusterCount * p.entrySize;
      && p.start == start && p.clusterCount == size / 0x4000 && p.entrySize == (if p.clusterCount < 65524 then 2 else 4)
      && used <= |p.table| < used + 4096 && |p.table| % 4096 == 0 && p.cluster1 == 4096 + |p.table|
      && forall i :: 0 <= i < |p.table| ==> start + 8 + i / 512 < |disk| && p.table[i] == disk[start + 8 + i / 512][i % 512]
  {
    hide TableSize;
    TableSectors(size);
    var header := disk[start..start + HEADER_SIZE / SECTOR];
    assert header[0] == disk[start];
    MagicBytes(Flat(header), disk[start]);
    if Opened(disk, start, size).Some? { OpenedTable(disk, start, size); }
  }

  lemma MagicBytes(s: seq<Octet>, first: Sector)
    requires |s| >= 4 && forall i :: 0 <= i < 4 ==> s[i] == first[i]
    ensures Word32(s, 0) == 0x58544146 <==> first[..4] == [0x46, 0x41, 0x54, 0x58]
  {
    assert first[..4] == [first[0], first[1], first[2], first[3]];
  }

  lemma OpenedTable(disk: Disk, start: nat, size: nat)
    requires start + (HEADER_SIZE + TableSize(size)) / SECTOR <= |disk| && Opened(disk, start, size).Some?
    ensures var p := Opened(disk, start, size).value;
      var used := p.clusterCount * p.entrySize;
      && |p.table| == TableSize(size) && used <= |p.table| < used + 4096
      && forall i :: 0 <= i < |p.table| ==> start + 8 + i / 512 < |disk| && p.table[i] == disk[start + 8 + i / 512][i % 512]
  {
    hide Word32;
    TableSectors(size);
    var lba, n := start + HEADER_SIZE / SECTOR, TableSize(size) / SECTOR;
    var p, ss := Opened(disk, start, size).value, disk[lba..lba + n];
    forall i | 0 <= i < |p.table|
      ensures start + 8 + i / 512 < |disk| && p.table[i] == disk[start + 8 + i / 512][i % 512]
    {
      assert ss[i / SECTOR] == disk[lba + i / SECTOR];
    }
  }

  method Open(disk: Disk, start: nat, size: nat) returns (r: Option<Partition>)
    requires start + (HEADER_SIZE + TableSize(size)) / SECTOR <= |disk|
    ensures r == Opened(disk, start, size)
  {
    hide Flat, Word32;
    var info := ReadSectors(disk, start, 0, HEADER_SIZE);
    if Word32(info, 0) != 0x58544146 { return None; }
    var clusterCount := size / CLUSTER_SIZE;
    var entrySize := if clusterCount >= 0xFFF4 then 4 else 2;
    var tableSize := clusterCount * entrySize;
    if tableSize % TABLE_BLOCK != 0 { tableSize := (tableSize / TABLE_BLOCK + 1) * TABLE_BLOCK; }
    assert tableSize == TableSize(size);
    hide TableSize;
    TableSectors(size);
    var table := ReadSectors(disk, start, HEADER_SIZE, tableSize);
    return Some(Partition(start, clusterCount, entrySize, table, HEADER_SIZE + tableSize));
  }

  // ---- cluster chains ----------------------------------------------------

  function TableEntry(p: Partition, c: nat): nat
    requires (p.entrySize == 2 || p.entrySize == 4) && (c + 1) * p.entrySize <= |p.table|
  {
    if p.entrySize == 2 then Word16(p.table, 2 * c) else Word32(p.table, 4 * c)
  }

  /** getNextClusterInChain: -1 at the end-of-chain and root markers. */
  function Next(p: Partition, disk: Disk, c: nat): int
    requires Mounted(p) && InRange(p, disk, c)
  {
    var v := TableEntry(p, c);
    if p.entrySize == 2 then (if v == 0xFFFF || v == 0xFFF8 then -1 else v)
    else if v == 0xFFFF_FFFF || v == 0xFFFF_FFF8 then -1
    else AsInt(v)
  }

  /** The clusters met from `c` until the chain ends, all of them in range. */
  predicate IsChain(p: Partition, disk: Disk, c: int, ids: seq<nat>)
    requires Mounted(p)
    decreases |ids|
  {
    if ids == [] then c == -1
    else c == ids[0] && InRange(p, disk, c) && IsChain(p, disk, Next(p, disk, c), ids[1..])
  }

  /** The first clusters met from `c` on, whatever comes behind them. */
  predicate IsTrail(p: Partition, disk: Disk, c: int, ids: seq<nat>)
    requires Mounted(p)
    decreases |ids|
  {
    ids == [] || (c == ids[0] && InRange(p, disk, c) && IsTrail(p, disk, Next(p, disk, c), ids[1..]))
  }

  /** Of two trails from the same cluster one begins with the other; they are
      equal if the shorter one is a whole chain. */
  lemma {:induction false} TrailsNest(p: Partition, disk: Disk, c: int, ids: seq<nat>, ids': seq<nat>)
    requires Mounted(p) && IsTrail(p, disk, c, ids) && IsTrail(p, disk, c, ids') && |ids| <= |ids'|
    ensures ids == ids'[..|ids|] && (IsChain(p, disk, c, ids) ==> ids == ids')
    decreases |ids|
  {
    if ids != [] { TrailsNest(p, disk, Next(p, disk, c), ids[1..], ids'[1..]); }
  }

  /** One step along a trail. */
  lemma TrailStep(p: Partition, disk: Disk, c: int, ids: seq<nat>, k: nat)
    requires Mounted(p) && k < |ids| && IsTrail(p, disk, c, ids[k..])
    ensures c == ids[k] && InRange(p, disk, c) && IsTrail(p, disk, Next(p, disk, c), ids[k + 1..])
    ensures IsChain(p, disk, c, ids[k..]) ==> IsChain(p, disk, Next(p, disk, c), ids[k + 1..])
  {
    assert ids[k..][1..] == ids[k + 1..];
  }

  /** A chain that ends visits no cluster twice. */
  lemma {:induction false} ChainIsAcyclic(p: Partition, disk: Disk, c: int, ids: seq<nat>, i: nat, j: nat)
    requires Mounted(p) && IsChain(p, disk, c, ids) && i < j < |ids|
    ensures ids[i] != ids[j]
    decreases |ids|
  {
    if ids[i] == ids[j] {
      ChainTail(p, disk, c, ids, i);
      ChainTail(p, disk, c, ids, j);
      ChainIsUnique(p, disk, ids[i], ids[i..], ids[j..]);
    }
  }

  lemma {:induction false} ChainTail(p: Partition, disk: Disk, c: int, ids: seq<nat>, i: nat)
    requires Mounted(p) && IsChain(p, disk, c, ids) && i < |ids|
    ensures IsChain(p, disk, ids[i], ids[i..]) && InRange(p, disk, ids[i])
    decreases i
  {
    if i == 0 {
      assert ids[0..] == ids;
    } else {
      ChainTail(p, disk, Next(p, disk, c), ids[1..], i - 1);
      assert ids[1..][i - 1..] == ids[i..];
    }
  }

  /** The chain from a cluster is determined by the map. */
  lemma {:induction false} ChainIsUnique(p: Partition, disk: Disk, c: int, ids: seq<nat>, ids': seq<nat>)
    requires Mounted(p) && IsChain(p, disk, c, ids) && IsChain(p, disk, c, ids')
    ensures ids == ids'
    decreases |ids|
  {
    if ids != [] && ids' != [] {
      ChainIsUnique(p, disk, Next(p, disk, c), ids[1..], ids'[1..]);
      assert ids == [ids[0]] + ids[1..] && ids' == [ids'[0]] + ids'[1..];
    }
  }

  /** One step along a chain. */
  lemma ChainStep(p: Partition, disk: Disk, c: int, ids: seq<nat>, k: nat)
    requires Mounted(p) && k <= |ids| && IsChain(p, disk, c, ids[k..])
    ensures c == -1 ==> k == |ids|
    ensures c != -1 ==> k < |ids| && c == ids[k] && InRange(p, disk, c) && IsChain(p, disk, Next(p, disk, c), ids[k + 1..])
  {
    if k < |ids| { assert ids[k..][1..] == ids[k + 1..]; }
  }

  // ---- loading a file ----------------------------------------------------

  /** The bytes of a chain of clusters. */
  function ChainBytes(p: Partition, disk: Disk, ids: seq<nat>): (r: seq<Octet>)
    requires Mounted(p) && forall c :: c in ids ==> InRange(p, disk, c)
    ensures |r| == CLUSTER_SIZE * |ids|
  {
    if ids == [] then [] else ChainBytes(p, disk, ids[..|ids| - 1]) + ClusterData(p, disk, ids[|ids| - 1])
  }

  lemma {:induction false} ChainInRange(p: Partition, disk: Disk, c: int, ids: seq<nat>)
    requires Mounted(p) && IsChain(p, disk, c, ids)
    ensures forall d :: d in ids ==> InRange(p, disk, d)
  {
    forall d | d in ids ensures InRange(p, disk, d) {
      var i :| 0 <= i < |ids| && ids[i] == d;
      ChainTail(p, disk, c, ids, i);
    }
  }

  lemma ChainBytesSnoc(p: Partition, disk: Disk, ids: seq<nat>, k: nat)
    requires Mounted(p) && k < |ids| && forall c :: c in ids ==> InRange(p, disk, c)
    ensures ChainBytes(p, disk, ids[..k + 1]) == ChainBytes(p, disk, ids[..k]) + ClusterData(p, disk, ids[k])
  {
    assert ids[..k + 1][..k] == ids[..k];
  }

  /** Byte `i` of a file is `b`: it lies in cluster `ids[i / 16KB]`, and cluster 1
      at byte `cluster1` of the partition. */
  predicate FileByte(p: Partition, disk: Disk, ids: seq<nat>, i: nat, b: Octet) {
    var k := i / 0x4000;
    && k < |ids|
    && var c: int := ids[k];
       var lba := p.start + p.cluster1 / 512 + (c - 1) * 32 + i % 0x4000 / 512;
       0 <= lba < |disk| && b == disk[lba][i % 512]
  }

  lemma {:induction false} ChainBytesAt(p: Partition, disk: Disk, ids: seq<nat>, i: nat)
    requires Mounted(p) && (forall c :: c in ids ==> InRange(p, disk, c)) && i < CLUSTER_SIZE * |ids|
    ensures FileByte(p, disk, ids, i, ChainBytes(p, disk, ids)[i])
    decreases |ids|
  {
    hide ClusterData, Mounted, InRange, FileByte;
    var last := |ids| - 1;
    if i < CLUSTER_SIZE * last {
      ChainBytesAt(p, disk, ids[..last], i);
      FileByteInPrefix(p, disk, ids, last, i, ChainBytes(p, disk, ids)[i]);
    } else {
      assert ids[last] in ids;
      FileByteInLast(p, disk, ids, i);
    }
  }

  lemma FileByteInPrefix(p: Partition, disk: Disk, ids: seq<nat>, n: nat, i: nat, b: Octet)
    requires n <= |ids| && FileByte(p, disk, ids[..n], i, b)
    ensures FileByte(p, disk, ids, i, b)
  {
  }

  lemma FileByteInLast(p: Partition, disk: Disk, ids: seq<nat>, i: nat)
    requires Mounted(p) && ids != [] && CLUSTER_SIZE * (|ids| - 1) <= i < CLUSTER_SIZE * |ids|
    requires InRange(p, disk, ids[|ids| - 1])
    ensures FileByte(p, disk, ids, i, ClusterData(p, disk, ids[|ids| - 1])[i - CLUSTER_SIZE * (|ids| - 1)])
  {
    hide ClusterData, Mounted, InRange;
    var last := |ids| - 1;
    SplitIndex(i, last);
    ClusterByte(p, disk, ids[last], i - CLUSTER_SIZE * last);
  }

  lemma SplitIndex(i: nat, k: nat)
    requires 0x4000 * k <= i < 0x4000 * k + 0x4000
    ensures i / 0x4000 == k && i % 0x4000 == i - 0x4000 * k && i % 512 == (i - 0x4000 * k) % 512
  {
    DivModUnique(i, 0x4000, k, i - 0x4000 * k);
    ModShift(512, 32 * k, i - 0x4000 * k);
  }

  lemma ClusterByte(p: Partition, disk: Disk, c: nat, j: nat)
    requires Mounted(p) && InRange(p, disk, c) && j < CLUSTER_SIZE
    ensures var lba := p.start + p.cluster1 / 512 + (c - 1) * 32 + j / 512;
      0 <= lba < |disk| && ClusterData(p, disk, c)[j] == disk[lba][j % 512]
  {
  }

  lemma ChainBytesNone(p: Partition, disk: Disk)
    requires Mounted(p)
    ensures ChainBytes(p, disk, []) == []
  {
  }

  /** Copying the start of the next cluster behind what was loaded so far. */
  lemma LoadedMore(before: seq<Octet>, after: seq<Octet>, bytes: seq<Octet>, data: seq<Octet>, read: nat, written: nat)
    requires read + written <= |before| == |after| && read <= |bytes| && written <= |data|
    requires before[..read] == bytes[..read] && (written > 0 ==> read == |bytes|)
    requires after[..read] == before[..read] && after[read..read + written] == data[..written]
    ensures after[..read + written] == (bytes + data)[..read + written]
  {
    assert after[..read + written] == after[..read] + after[read..read + written];
  }

  lemma RestUntouched(orig: seq<Octet>, before: seq<Octet>, after: seq<Octet>, read: nat, written: nat)
    requires read + written <= |orig| == |before| == |after|
    requires before[read..] == orig[read..] && after[read + written..] == before[read + written..]
    ensures after[read + written..] == orig[read + written..]
  {
    assert before[read + written..] == before[read..][written..] == orig[read..][written..];
  }

  /** FATXLoadFromDisk into a buffer that holds the file. */
  method LoadFromDisk(p: Partition, disk: Disk, first: int, fileSize: nat, buffer: array<Octet>, ghost ids: seq<nat>)
    returns (ok: bool, fileRead: nat)
    requires Mounted(p) && IsChain(p, disk, first, ids) && fileSize <= buffer.Length
    modifies buffer
    ensures forall d :: d in ids ==> InRange(p, disk, d)
    ensures fileRead == Min(fileSize, CLUSTER_SIZE * |ids|)
    ensures buffer[..fileRead] == ChainBytes(p, disk, ids)[..fileRead]
    ensures buffer[fileRead..] == old(buffer[..])[fileRead..]
    ensures forall i :: 0 <= i < fileRead ==> FileByte(p, disk, ids, i, buffer[i])
    ensures ok <==> fileSize <= CLUSTER_SIZE * |ids|
  {
    hide ClusterData, ChainBytes, Next, IsChain, InRange, Mounted, FileByte;
    ChainInRange(p, disk, first, ids);
    var clusterId, left: nat := first, fileSize;
    fileRead := 0;
    ghost var k := 0;
    assert ids[0..] == ids && ids[..0] == [];
    ChainBytesNone(p, disk);
    while clusterId != -1
      invariant k <= |ids| && IsChain(p, disk, clusterId, ids[k..])
      invariant fileRead == Min(fileSize, CLUSTER_SIZE * k) && left == fileSize - fileRead
      invariant buffer[..fileRead] == ChainBytes(p, disk, ids[..k])[..fileRead]
      invariant buffer[fileRead..] == old(buffer[..])[fileRead..]
      decreases |ids| - k
    {
      ChainStep(p, disk, clusterId, ids, k);
      var data := LoadCluster(p, disk, clusterId);
      var written := if left <= CLUSTER_SIZE then left else CLUSTER_SIZE;
      ghost var before := buffer[..];
      Copy(buffer, fileRead, data[..written]);
      LoadedMore(before, buffer[..], ChainBytes(p, disk, ids[..k]), data, fileRead, written);
      RestUntouched(old(buffer[..]), before, buffer[..], fileRead, written);
      ChainBytesSnoc(p, disk, ids, k);
      left := left - written;
      fileRead := fileRead + written;
      clusterId := Next(p, disk, clusterId);
      k := k + 1;
    }
    ChainStep(p, disk, clusterId, ids, k);
    assert ids[..k] == ids;
    ok := left == 0;
    forall i | 0 <= i < fileRead ensures FileByte(p, disk, ids, i, buffer[i]) {
      ChainBytesAt(p, disk, ids, i);
      assert buffer[i] == buffer[..fileRead][i];
    }
  }

  /** memcpy into an array. */
  method Copy(buffer: array<Octet>, at: nat, data: seq<Octet>)
    requires at + |data| <= buffer.Length
    modifies buffer
    ensures buffer[..at] == old(buffer[..at]) && buffer[at..at + |data|] == data
    ensures buffer[at + |data|..] == old(buffer[at + |data|..])
  {
    forall i | 0 <= i < |data| { buffer[at + i] := data[i]; }
  }
}
