/**
 FATXFormatExtendedDrive (fs/fatx/BootFATX.c) from the partition header to the
 root directory, and what OpenFATXPartition then makes of the partition.
 */
module FatxExtendedDrive {
  import opened Types
  import opened AtaAddress
  import opened AtaDrive
  import opened Fatx
  import opened FatxLookup
  import opened FatxFormat
  import opened FatxReadBack
  import opened FatxExtended

  function Wide(lbaSize: nat): bool {
    FormatterWidth(lbaSize) == 4
  }

  /** The sector, relative to the partition, of the root directory. */
  function RootAt(lbaSize: nat): nat {
    TABLE_AT + MapSectors(lbaSize)
  }

  /** How many sectors the formatter writes. */
  function Extent(lbaSize: nat): nat {
    RootAt(lbaSize) + 2 * ClusterSectors(lbaSize)
  }

  /** What the partition holds after formatting. */
  predicate ExtendedHolds(disk: Disk, start: nat, lbaSize: nat, volume: Octet) {
    && start + Extent(lbaSize) <= |disk|
    && BootBlock(disk, start, HeaderSector(volume, ClusterSectors(lbaSize)))
    && MapHolds(disk, start + TABLE_AT, MapSectors(lbaSize), Wide(lbaSize), 0, MapSectors(lbaSize))
    && forall a :: start + RootAt(lbaSize) <= a < start + Extent(lbaSize) ==> disk[a] == Filled(0xFF)
  }

  /** No write of 256 sectors takes a 48-bit command. */
  predicate FormatIn28(start: nat, lbaSize: nat) {
    && MapIn28(start + TABLE_AT, MapSectors(lbaSize))
    && (2 * ClusterSectors(lbaSize) < 256 || start + Extent(lbaSize) < LBA28_LIMIT)
  }

  /** The two erased clusters of the root directory. */
  method WriteRoot(d: Drive, base: nat, n: nat) returns (ok: bool)
    requires d.Ok() && 0 < n <= 256 && base + n <= |d.disk| && Expressible(base, d.geometry)
    modifies d
    ensures d.Ok() && |d.disk| == old(|d.disk|)
    ensures d.orderly == old(d.Idle()) && (!ok ==> d.left == 0)
    ensures ok && d.orderly ==> (d.left == 0 <==> n < 256 || base + n < LBA28_LIMIT)
    ensures d.orderly ==> SameOutside(d.disk, old(d.disk), base, base + n)
    ensures ok && d.orderly ==> forall a :: base <= a < base + n ==> d.disk[a] == Filled(0xFF)
    ensures Reliable(d.faults, WRITE_RETRY) && old(d.Idle()) && (n < 256 || base + n < LBA28_LIMIT) ==> ok
  {
    hide Filled, Expressible, Passes, BlockCount;
    SendsWhatItAnnounces(base, n, d.blockSize);
    var status := d.WriteMultiple(Copies(Filled(0xFF), n), base, n, WRITE_RETRY);
    ok := status == 0;
  }

  /** FATXFormatExtendedDrive behind its partition-table update. If it reports
      success, the device is ready and the partition is as described if and
      only if no write of 256 sectors takes a 48-bit command. */
  method FormatExtended(d: Drive, start: nat, lbaSize: UInt, volume: Octet) returns (ok: bool)
    requires d.Ok() && d.Idle() && start + Extent(lbaSize) <= |d.disk|
    requires forall a :: start <= a < start + Extent(lbaSize) ==> Expressible(a, d.geometry)
    modifies d
    ensures d.Ok()
    ensures FormatIn28(start, lbaSize) ==> d.Idle()
    ensures ok ==> (d.Idle() <==> FormatIn28(start, lbaSize))
    ensures d.Idle() ==> SameOutside(d.disk, old(d.disk), start, start + Extent(lbaSize))
    ensures ok && d.Idle() ==> ExtendedHolds(d.disk, start, lbaSize, volume)
    ensures ok && d.Idle() ==>
      && Word32(d.disk[start], 4) == volume
      && Word32(d.disk[start], 8) == (if lbaSize < 0x2000_0000 then 32 else if lbaSize < 0x4000_0000 then 64 else 128)
    ensures Reliable(d.faults, WRITE_RETRY) && FormatIn28(start, lbaSize) ==>
      ok && ExtendedHolds(d.disk, start, lbaSize, volume)
  {
    hide Reliable, Expressible, Filled, HeaderSector, MapSector, MapSectors;
    ok := false;
    var n := ComputeMapSectors(lbaSize);
    var written, clean := WriteHeader(d, start, HeaderSector(volume, ClusterSectors(lbaSize)));
    if !clean { return; }
    written := WriteMap(d, start + TABLE_AT, n, Wide(lbaSize));
    if !written { return; }
    ok := WriteRoot(d, start + TABLE_AT + n, 2 * ClusterSectors(lbaSize));
    HeaderFields(volume, ClusterSectors(lbaSize));
  }

  // ---- opening the partition again ---------------------------------------

  /** The opener can read the header and its idea of the chain map. */
  predicate Readable(disk: Disk, start: nat, lbaSize: nat) {
    start + (HEADER_SIZE + TableSize(lbaSize * SECTOR)) / SECTOR <= |disk|
  }

  lemma ExtendedOpens(disk: Disk, start: nat, lbaSize: nat, volume: Octet)
    requires ExtendedHolds(disk, start, lbaSize, volume) && Readable(disk, start, lbaSize)
    ensures Opened(disk, start, lbaSize * SECTOR).Some? && Mounted(Opened(disk, start, lbaSize * SECTOR).value)
  {
    hide HeaderSector, Filled, MapSector, MapSectors;
    HeaderHasMagic(disk, start, volume, ClusterSectors(lbaSize));
    OpenedIsMounted(disk, start, lbaSize * SECTOR);
  }

  function Reopened(disk: Disk, start: nat, lbaSize: nat, volume: Octet): (p: Partition)
    requires ExtendedHolds(disk, start, lbaSize, volume) && Readable(disk, start, lbaSize)
    ensures Mounted(p) && p.cluster1 == HEADER_SIZE + TableSize(lbaSize * SECTOR)
  {
    ExtendedOpens(disk, start, lbaSize, volume);
    Opened(disk, start, lbaSize * SECTOR).value
  }

  /** Of all its clusters the partition has 0 and 1 reserved and no others. */
  predicate ReservesTwo(p: Partition)
    requires Mounted(p)
  {
    forall c :: 0 <= c < p.clusterCount ==> (TableEntry(p, c) != 0 <==> c < 2)
  }

  /** Where the layouts agree, the opener reads exactly the map that was written. */
  lemma ReadsTheMap(disk: Disk, start: nat, lbaSize: UInt, volume: Octet)
    requires ExtendedHolds(disk, start, lbaSize, volume) && Readable(disk, start, lbaSize) && LayoutsAgree(lbaSize)
    ensures var p, base, n := Reopened(disk, start, lbaSize, volume), start + TABLE_AT, MapSectors(lbaSize);
      && p.table == Flat(disk[base..base + n]) && p.entrySize == FormatterWidth(lbaSize)
      && p.clusterCount == lbaSize / 32 && p.clusterCount * p.entrySize <= SECTOR * n
      && p.start == start && p.cluster1 == (TABLE_AT + n) * SECTOR
  {
    hide HeaderSector, Filled, MapSector, MapSectors;
    LayoutsAgreeExactly(lbaSize);
    ExtendedOpens(disk, start, lbaSize, volume);
    OpenedIsMounted(disk, start, lbaSize * SECTOR);
  }

  lemma EntryIsMapEntry(p: Partition, table: seq<Sector>, wide: bool, c: nat)
    requires Mounted(p) && p.table == Flat(table) && p.entrySize == (if wide then 4 else 2) && c < p.clusterCount
    ensures c < EntryCount(|table|, wide) && TableEntry(p, c) == MapEntry(table, wide, c)
  {
  }

  lemma AgreedReserves(disk: Disk, start: nat, lbaSize: UInt, volume: Octet)
    requires ExtendedHolds(disk, start, lbaSize, volume) && Readable(disk, start, lbaSize) && LayoutsAgree(lbaSize)
    ensures ReservesTwo(Reopened(disk, start, lbaSize, volume)) <==> MapSectors(lbaSize) % 256 != 0 || lbaSize < 32
  {
    hide HeaderSector, Filled, MapSector, MapSectors, MapEntry, TableEntry, Reopened, Opened;
    ReadsTheMap(disk, start, lbaSize, volume);
    var p, base, n, wide := Reopened(disk, start, lbaSize, volume), start + TABLE_AT, MapSectors(lbaSize), Wide(lbaSize);
    var table := disk[base..base + n];
    if n % 256 != 0 {
      ReservesExactly(disk, base, n, wide);
      forall c | 0 <= c < p.clusterCount ensures TableEntry(p, c) != 0 <==> c < 2 {
        EntryIsMapEntry(p, table, wide, c);
      }
    } else if lbaSize >= 32 {
      ManyClusters(lbaSize);
      assert forall j :: 0 <= j < n ==> table[j] == disk[base + j] == MapSector(n, wide, j);
      FullRunEntries(n, wide, table);
      EntryIsMapEntry(p, table, wide, 2);
    }
  }

  /** A map of full runs belongs to a partition with many clusters. */
  lemma ManyClusters(lbaSize: UInt)
    requires LayoutsAgree(lbaSize) && MapSectors(lbaSize) % 256 == 0 && lbaSize >= 32
    ensures MapSectors(lbaSize) > 0 && lbaSize / 32 > 2
  {
    var bytes := lbaSize / 32 * FormatterWidth(lbaSize);
    assert bytes >= SECTOR;
  }

  /** The opened partition has its root where the formatter put it, with clusters
      0 and 1 reserved and no others, if and only if the layouts agree and the
      map was not written in full runs only (or there are no clusters at all). */
  lemma ExtendedReadsBackExactly(disk: Disk, start: nat, lbaSize: UInt, volume: Octet)
    requires ExtendedHolds(disk, start, lbaSize, volume) && Readable(disk, start, lbaSize)
    ensures var p := Reopened(disk, start, lbaSize, volume);
      p.cluster1 == RootAt(lbaSize) * SECTOR && ReservesTwo(p) <==>
        LayoutsAgree(lbaSize) && (MapSectors(lbaSize) % 256 != 0 || lbaSize < 32)
  {
    hide HeaderSector, Filled, MapSector, MapSectors, ReservesTwo, LayoutsAgree, Reopened, TableSize;
    LayoutsAgreeExactly(lbaSize);
    if LayoutsAgree(lbaSize) { AgreedReserves(disk, start, lbaSize, volume); }
  }

  lemma RootInRange(disk: Disk, start: nat, lbaSize: UInt, volume: Octet)
    requires ExtendedHolds(disk, start, lbaSize, volume) && Readable(disk, start, lbaSize)
    requires LayoutsAgree(lbaSize) && MapSectors(lbaSize) % 256 != 0
    ensures InRange(Reopened(disk, start, lbaSize, volume), disk, ROOT_CLUSTER)
  {
    hide HeaderSector, Filled, MapSector, Reopened, Opened;
    ReadsTheMap(disk, start, lbaSize, volume);
    assert lbaSize / 32 * FormatterWidth(lbaSize) >= SECTOR;
  }

  lemma ExtendedMap(disk: Disk, start: nat, lbaSize: nat, volume: Octet)
    requires ExtendedHolds(disk, start, lbaSize, volume)
    ensures var base, n := start + TABLE_AT, MapSectors(lbaSize);
      base + n <= |disk| && forall j :: 0 <= j < n ==> disk[base..base + n][j] == MapSector(n, Wide(lbaSize), j)
  {
    hide HeaderSector, Filled, MapSector, MapSectors;
    var base, n := start + TABLE_AT, MapSectors(lbaSize);
    var table := disk[base..base + n];
    assert forall j :: 0 <= j < n ==> table[j] == disk[base + j];
  }

  lemma RootEndsChain(disk: Disk, start: nat, lbaSize: UInt, volume: Octet)
    requires ExtendedHolds(disk, start, lbaSize, volume) && Readable(disk, start, lbaSize)
    requires LayoutsAgree(lbaSize) && MapSectors(lbaSize) % 256 != 0
    requires InRange(Reopened(disk, start, lbaSize, volume), disk, ROOT_CLUSTER)
    ensures Next(Reopened(disk, start, lbaSize, volume), disk, ROOT_CLUSTER) == -1
  {
    hide HeaderSector, Filled, MapSector, MapSectors, Reopened, Opened, TableEntry, MapEntry, Flat, Next, LayoutsAgree,
      ExtendedHolds, Readable, ClusterLba;
    ReadsTheMap(disk, start, lbaSize, volume);
    ExtendedMap(disk, start, lbaSize, volume);
    var base, n, wide := start + TABLE_AT, MapSectors(lbaSize), Wide(lbaSize);
    var table := disk[base..base + n];
    RootEntry(n, wide, table);
    EntryIsMapEntry(Reopened(disk, start, lbaSize, volume), table, wide, ROOT_CLUSTER);
    EndMarker(Reopened(disk, start, lbaSize, volume), disk, ROOT_CLUSTER);
  }

  lemma EndMarker(p: Partition, disk: Disk, c: nat)
    requires Mounted(p) && InRange(p, disk, c) && TableEntry(p, c) == if p.entrySize == 4 then 0xFFFF_FFFF else 0xFFFF
    ensures Next(p, disk, c) == -1
  {
  }

  lemma RootEntry(n: nat, wide: bool, table: seq<Sector>)
    requires n % 256 != 0 && |table| == n
    requires forall j :: 0 <= j < n ==> table[j] == MapSector(n, wide, j)
    ensures MapEntry(table, wide, ROOT_CLUSTER) == if wide then 0xFFFF_FFFF else 0xFFFF
  {
    hide MapSector, Flat;
    if wide {
      MapByte(n, wide, table, 4);
      MapByte(n, wide, table, 5);
      MapByte(n, wide, table, 6);
      MapByte(n, wide, table, 7);
    } else {
      MapByte(n, wide, table, 2);
      MapByte(n, wide, table, 3);
    }
  }

  lemma RootSlot(disk: Disk, start: nat, lbaSize: UInt, volume: Octet)
    requires ExtendedHolds(disk, start, lbaSize, volume) && Readable(disk, start, lbaSize)
    requires LayoutsAgree(lbaSize) && InRange(Reopened(disk, start, lbaSize, volume), disk, ROOT_CLUSTER)
    ensures Slots(Reopened(disk, start, lbaSize, volume), disk, [ROOT_CLUSTER])[0].IsEnd()
  {
    hide HeaderSector, Filled, MapSector, MapSectors, Reopened, Opened, EntryAt, EntryIn;
    ReadsTheMap(disk, start, lbaSize, volume);
    var p := Reopened(disk, start, lbaSize, volume);
    var lba := ClusterLba(p, ROOT_CLUSTER);
    assert lba == start + RootAt(lbaSize) && disk[lba] == Filled(0xFF);
    EntryInFirstSector(disk[lba..lba + CLUSTER_SECTORS], 0);
    EmptySlot(0xFF, 0);
  }

  /** And then its root directory is there, and empty. */
  lemma RootIsEmpty(disk: Disk, start: nat, lbaSize: UInt, volume: Octet, x: Name)
    requires ExtendedHolds(disk, start, lbaSize, volume) && Readable(disk, start, lbaSize)
    requires LayoutsAgree(lbaSize) && MapSectors(lbaSize) % 256 != 0
    ensures var p := Reopened(disk, start, lbaSize, volume);
      && IsChain(p, disk, ROOT_CLUSTER, [ROOT_CLUSTER]) && InRange(p, disk, ROOT_CLUSTER)
      && FoundDir(Slots(p, disk, [ROOT_CLUSTER]), x) == -1
  {
    hide HeaderSector, Filled, MapSector, MapSectors, MapEntry, TableEntry, Reopened, Opened, Slots, Search;
    ReadsTheMap(disk, start, lbaSize, volume);
    RootInRange(disk, start, lbaSize, volume);
    var p := Reopened(disk, start, lbaSize, volume);
    RootEndsChain(disk, start, lbaSize, volume);
    assert IsChain(p, disk, -1, []);
    RootSlot(disk, start, lbaSize, volume);
    FoundDirExactly(Slots(p, disk, [ROOT_CLUSTER]), x, 0);
  }
}
