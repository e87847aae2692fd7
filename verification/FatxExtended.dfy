/**
 Formatting an extended partition (FATXFormatExtendedDrive in
 fs/fatx/BootFATX.c): the size of its chain map and how it is written.
 */
module FatxExtended {
  import opened AtaAddress
  import opened AtaDrive
  import opened Fatx
  import opened FatxFormat

  const LBASIZE_512GB: nat := 1073741824
  const LBASIZE_256GB: nat := 536870912
  const FATX16_MAXLBA: nat := 2096800

  // ---- where cluster 1 starts --------------------------------------------

  function ClusterSectors(lbaSize: nat): nat {
    if lbaSize >= LBASIZE_512GB then 128 else if lbaSize >= LBASIZE_256GB then 64 else 32
  }

  function FormatterWidth(lbaSize: nat): nat {
    if lbaSize < FATX16_MAXLBA then 2 else 4
  }

  function UpToEight(n: nat): nat {
    (n + 7) / 8 * 8
  }

  /** Sectors the formatter gives to the chain map. */
  function MapSectors(lbaSize: nat): nat {
    UpToEight(lbaSize / ClusterSectors(lbaSize) * FormatterWidth(lbaSize) / SECTOR)
  }

  /** The computation as it is written, rounding up one by one. */
  method ComputeMapSectors(lbaSize: nat) returns (n: nat)
    ensures n == MapSectors(lbaSize)
  {
    hide UpToEight;
    n := lbaSize / ClusterSectors(lbaSize);
    n := n * FormatterWidth(lbaSize);
    n := n / 512;
    n := RoundUp(n);
  }

  method RoundUp(whole: nat) returns (n: nat)
    ensures n == UpToEight(whole)
  {
    n := whole;
    while n % 8 != 0
      invariant whole <= n <= UpToEight(whole)
      decreases UpToEight(whole) - n
    {
      n := n + 1;
    }
  }

  /** The opener takes every cluster for 16KB and picks the entry width by cluster count. */
  function OpenerWidth(lbaSize: nat): nat {
    EntrySize(ClusterCount(lbaSize * SECTOR))
  }

  /** The partition has 16KB clusters, formatter and opener choose the same entry
      width, and the chain map does not end in the first 512 bytes of a 4KB block. */
  predicate LayoutsAgree(lbaSize: nat) {
    && lbaSize < LBASIZE_256GB && FormatterWidth(lbaSize) == OpenerWidth(lbaSize)
    && var rest := lbaSize / 32 * FormatterWidth(lbaSize) % TABLE_BLOCK; rest == 0 || rest >= SECTOR
  }

  /** Formatter and opener put cluster 1 at the same place if and only if that holds. */
  lemma LayoutsAgreeExactly(lbaSize: UInt)
    ensures HEADER_SIZE + MapSectors(lbaSize) * SECTOR == HEADER_SIZE + TableSize(lbaSize * SECTOR) <==> LayoutsAgree(lbaSize)
  {
    assert ClusterCount(lbaSize * SECTOR) == lbaSize / 32;
    var bytes := lbaSize / 32 * OpenerWidth(lbaSize);
    if lbaSize >= LBASIZE_256GB {
      assert MapSectors(lbaSize) * SECTOR < bytes;
    } else if FormatterWidth(lbaSize) != OpenerWidth(lbaSize) {
      assert lbaSize / 32 == 65524;
    } else {
      RoundingsAgree(bytes);
    }
  }

  /** A partition for which they do not: its entries are 2 bytes wide for the
      formatter and 4 for the opener. */
  lemma LayoutsDisagree()
    ensures !LayoutsAgree(2096768) && FormatterWidth(2096768) == 2 && OpenerWidth(2096768) == 4
  {
  }

  /** Dropping a partial sector before rounding to 4KB matters only for the first one. */
  lemma RoundingsAgree(bytes: nat)
    ensures UpToEight(bytes / SECTOR) * SECTOR == RoundedUp(bytes) <==>
      bytes % TABLE_BLOCK == 0 || bytes % TABLE_BLOCK >= SECTOR
  {
    var q, r := bytes / TABLE_BLOCK, bytes % TABLE_BLOCK;
    assert bytes / SECTOR == 8 * q + r / SECTOR;
    assert (8 * q + r / SECTOR + 7) / 8 == q + (r / SECTOR + 7) / 8;
    assert (r / SECTOR + 7) / 8 == if r < SECTOR then 0 else 1;
    assert RoundedUp(bytes) == TABLE_BLOCK * (if r == 0 then q else q + 1);
  }

  /** The widths differ on 32 sizes only. */
  lemma WidthsDifferExactly(lbaSize: nat)
    ensures FormatterWidth(lbaSize) != OpenerWidth(lbaSize) <==> 2096768 <= lbaSize < FATX16_MAXLBA
  {
    assert ClusterCount(lbaSize * SECTOR) == lbaSize / 32;
  }

  // ---- writing the chain map ---------------------------------------------

  /** The first sector of the buffer when the map is written in full runs only:
      byte 2 is skipped and one byte too many is set. */
  function FullRunSector(wide: bool): Sector {
    if wide then [0xF8, 0xFF, 0] + Repeat(0xFF, 6) + Repeat(0, 503) else [0xF8, 0xFF, 0, 0xFF, 0xFF] + Repeat(0, 507)
  }

  /** The first sector of the leading partial run. */
  function PartialRunSector(wide: bool): Sector {
    if wide then [0xF8] + Repeat(0xFF, 7) + Repeat(0, 504) else [0xF8] + Repeat(0xFF, 3) + Repeat(0, 508)
  }

  /** What sector `j` of an `n`-sector chain map holds after formatting. */
  function MapSector(n: nat, wide: bool, j: nat): Sector {
    if n % 256 == 0 then (if j % 256 == 0 then FullRunSector(wide) else Filled(0))
    else if j == 0 then PartialRunSector(wide) else Filled(0)
  }

  predicate MapHolds(disk: Disk, base: nat, n: nat, wide: bool, lo: nat, hi: nat) {
    && base + hi <= |disk|
    && forall a :: base + lo <= a < base + hi ==> disk[a] == MapSector(n, wide, a - base)
  }

  /** Run `i` of the full ones covers sector `j` of the map. */
  predicate Covers(n: nat, i: nat, j: nat) {
    n % 256 + 256 * i <= j < n % 256 + 256 * i + 256
  }

  /** The full runs and the leading partial run tile the map: each of its
      sectors is covered by exactly one of them, and nothing else is covered. */
  lemma RunsTile(n: nat, j: nat)
    ensures n % 256 <= j < n <==> exists i :: 0 <= i < n / 256 && Covers(n, i, j)
    ensures forall i: nat, i': nat :: Covers(n, i, j) && Covers(n, i', j) ==> i == i'
    ensures forall i: nat :: Covers(n, i, j) ==> j >= n % 256
  {
    if n % 256 <= j < n {
      assert Covers(n, (j - n % 256) / 256, j);
    }
  }

  /** The buffer that is written once per full run. */
  function RunBuffer(n: nat, wide: bool): (r: seq<Sector>)
    ensures |r| == 256
  {
    var zeros := Copies(Filled(0), 256);
    if n % 256 == 0 then zeros[0 := FullRunSector(wide)] else zeros
  }

  lemma RunContents(n: nat, wide: bool, i: nat, k: nat)
    requires k < 256
    ensures RunBuffer(n, wide)[k] == MapSector(n, wide, n % 256 + 256 * i + k)
  {
    hide FullRunSector, PartialRunSector, Filled;
  }

  /** Writing one more full run. */
  lemma RunExtends(disk: Disk, base: nat, n: nat, wide: bool, i: nat)
    requires base + n % 256 + 256 * i + 256 <= |disk|
    requires MapHolds(disk, base, n, wide, n % 256, n % 256 + 256 * i)
    ensures MapHolds(Stored(disk, base + n % 256 + 256 * i, RunBuffer(n, wide)),
                     base, n, wide, n % 256, n % 256 + 256 * (i + 1))
  {
    hide MapSector, RunBuffer;
    var start := base + n % 256 + 256 * i;
    var after := Stored(disk, start, RunBuffer(n, wide));
    forall a | base + n % 256 <= a < start + 256 ensures after[a] == MapSector(n, wide, a - base) {
      if a >= start { RunContents(n, wide, i, a - start); }
    }
  }

  /** Writing the leading partial run completes the map. */
  lemma PartialCompletes(disk: Disk, base: nat, n: nat, wide: bool)
    requires base + n <= |disk| && n % 256 != 0 && MapHolds(disk, base, n, wide, n % 256, n)
    ensures MapHolds(Stored(disk, base, Copies(Filled(0), 256)[0 := PartialRunSector(wide)][..n % 256]), base, n, wide, 0, n)
  {
    hide FullRunSector, PartialRunSector, Filled;
  }

  /** No full run of the map takes a 48-bit command. */
  predicate MapIn28(base: nat, n: nat) {
    n < 256 || base + n < LBA28_LIMIT
  }

  /** The full runs, from the first to the last. */
  method WriteRuns(d: Drive, base: nat, n: nat, wide: bool, buffer: seq<Sector>) returns (ok: bool)
    requires d.Ok() && d.Idle() && base + n <= |d.disk| && buffer == RunBuffer(n, wide)
    requires forall a :: base <= a < base + n ==> Expressible(a, d.geometry)
    modifies d
    ensures d.Ok() && |d.disk| == old(|d.disk|)
    ensures MapIn28(base, n) ==> d.Idle()
    ensures ok ==> (d.Idle() <==> MapIn28(base, n))
    ensures d.Idle() ==> SameOutside(d.disk, old(d.disk), base, base + n)
    ensures ok && d.Idle() ==> MapHolds(d.disk, base, n, wide, n % 256, n)
    ensures Reliable(d.faults, WRITE_RETRY) && MapIn28(base, n) ==> ok
  {
    hide Passes, BlockCount, Expressible, MapHolds, Stored, Sent, Expected, RunBuffer, SameOutside;
    MapHoldsNothing(d.disk, base, n, wide);
    SameOutsideWiden(d.disk, d.disk, base, base, base + n);
    for i := 0 to n / 256
      invariant d.Ok() && |d.disk| == old(|d.disk|)
      invariant d.Idle() <==> i == 0 || base + n % 256 + 256 * i < LBA28_LIMIT
      invariant d.Idle() ==> SameOutside(d.disk, old(d.disk), base, base + n)
      invariant d.Idle() ==> MapHolds(d.disk, base, n, wide, n % 256, n % 256 + 256 * i)
    {
      var start := base + n % 256 + 256 * i;
      ghost var idle, mid := d.Idle(), d.disk;
      if idle { RunExtends(d.disk, base, n, wide, i); }
      SendsWhatItAnnounces(start, 256, d.blockSize);
      assert buffer[..256] == buffer;
      var status := d.WriteMultiple(buffer, start, 256, WRITE_RETRY);
      if idle { RunInMap(d.disk, mid, old(d.disk), start, base, base + n); }
      if status != 0 { return false; }
    }
    return true;
  }

  lemma RunInMap(disk: Disk, mid: Disk, was: Disk, start: nat, lo: nat, hi: nat)
    requires SameOutside(disk, mid, start, start + 256) && SameOutside(mid, was, lo, hi) && lo <= start && start + 256 <= hi
    ensures SameOutside(disk, was, lo, hi)
  {
  }

  /** The chain-map writes of FATXFormatExtendedDrive, at sector `base`. They
      leave the device ready, and the map as described, if and only if no full
      run takes a 48-bit command, for which the device expects 65536 sectors. */
  method WriteMap(d: Drive, base: nat, n: nat, wide: bool) returns (ok: bool)
    requires d.Ok() && d.Idle() && base + n <= |d.disk|
    requires forall a :: base <= a < base + n ==> Expressible(a, d.geometry)
    modifies d
    ensures d.Ok() && |d.disk| == old(|d.disk|)
    ensures MapIn28(base, n) ==> d.Idle()
    ensures ok ==> (d.Idle() <==> MapIn28(base, n))
    ensures d.Idle() ==> SameOutside(d.disk, old(d.disk), base, base + n)
    ensures ok && d.Idle() ==> MapHolds(d.disk, base, n, wide, 0, n)
    ensures Reliable(d.faults, WRITE_RETRY) && MapIn28(base, n) ==> ok
  {
    hide Passes, BlockCount, FullRunSector, PartialRunSector, Filled, Expressible, MapHolds, Stored, Sent, Expected, SameOutside;
    ok := false;
    var buffer := Copies(Filled(0), 256);
    if n % 256 == 0 { buffer := buffer[0 := FullRunSector(wide)]; }
    var written := WriteRuns(d, base, n, wide, buffer);
    if !written { return; }
    if n % 256 != 0 {
      buffer := buffer[0 := PartialRunSector(wide)];
      SendsWhatItAnnounces(base, n % 256, d.blockSize);
      ghost var idle, mid := d.Idle(), d.disk;
      if idle { PartialCompletes(d.disk, base, n, wide); }
      var status := d.WriteMultiple(buffer, base, n % 256, WRITE_RETRY);
      if idle { SameOutsideBoth(d.disk, mid, old(d.disk), base, base + n % 256, base, base + n, base + n); }
      if status != 0 { return; }
    }
    ok := true;
  }

  lemma MapHoldsNothing(disk: Disk, base: nat, n: nat, wide: bool)
    requires base + n <= |disk|
    ensures MapHolds(disk, base, n, wide, n % 256, n % 256)
  {
  }

  // ---- which clusters end up reserved ------------------------------------

  /** Entry `c` of the chain map, 2 or 4 bytes wide. */
  function MapEntry(table: seq<Sector>, wide: bool, c: nat): nat
    requires (c + 1) * (if wide then 4 else 2) <= SECTOR * |table|
  {
    if wide then Word32(Flat(table), 4 * c) else Word16(Flat(table), 2 * c)
  }

  function EntryCount(n: nat, wide: bool): nat {
    if wide then 128 * n else 256 * n
  }

  /** Only clusters 0 and 1 are reserved. */
  predicate OnlyTwoReserved(table: seq<Sector>, wide: bool) {
    forall c :: 0 <= c < EntryCount(|table|, wide) ==> (MapEntry(table, wide, c) != 0 <==> c < 2)
  }

  lemma MapByte(n: nat, wide: bool, table: seq<Sector>, i: nat)
    requires n % 256 != 0 && |table| == n && i < SECTOR * n
    requires forall j :: 0 <= j < n ==> table[j] == MapSector(n, wide, j)
    ensures Flat(table)[i] == if i == 0 then 0xF8 else if i < (if wide then 8 else 4) then 0xFF else 0
  {
  }

  lemma PartialRunEntries(n: nat, wide: bool, table: seq<Sector>, c: nat)
    requires n % 256 != 0 && |table| == n && c < EntryCount(n, wide)
    requires forall j :: 0 <= j < n ==> table[j] == MapSector(n, wide, j)
    ensures MapEntry(table, wide, c) ==
      if c == 0 then (if wide then 0xFFFF_FFF8 else 0xFFF8)
      else if c == 1 then (if wide then 0xFFFF_FFFF else 0xFFFF)
      else 0
  {
    hide MapSector, Flat;
    if wide {
      MapByte(n, wide, table, 4 * c);
      MapByte(n, wide, table, 4 * c + 1);
      MapByte(n, wide, table, 4 * c + 2);
      MapByte(n, wide, table, 4 * c + 3);
    } else {
      MapByte(n, wide, table, 2 * c);
      MapByte(n, wide, table, 2 * c + 1);
    }
  }

  /** A map written in full runs only has a hole in its first entries and a
      surplus one; for 2-byte entries that of cluster 1 is no end marker. */
  lemma FullRunEntries(n: nat, wide: bool, table: seq<Sector>)
    requires n % 256 == 0 && 0 < n == |table|
    requires forall j :: 0 <= j < n ==> table[j] == MapSector(n, wide, j)
    ensures MapEntry(table, wide, 0) == (if wide then 0xFF00_FFF8 else 0xFFF8)
    ensures MapEntry(table, wide, 1) == (if wide then 0xFFFF_FFFF else 0xFF00)
    ensures MapEntry(table, wide, 2) == 0xFF
  {
    assert table[0] == FullRunSector(wide);
    var t := Flat(table);
    assert forall i :: 0 <= i < 16 ==> t[i] == table[i / SECTOR][i % SECTOR] == FullRunSector(wide)[i];
  }

  /** The written map reserves clusters 0 and 1 and no others if and only if its
      size is not a multiple of 256 sectors. */
  lemma ReservesExactly(disk: Disk, base: nat, n: nat, wide: bool)
    requires n > 0 && MapHolds(disk, base, n, wide, 0, n)
    ensures OnlyTwoReserved(disk[base..base + n], wide) <==> n % 256 != 0
  {
    hide MapSector, MapEntry;
    var table := disk[base..base + n];
    assert forall j :: 0 <= j < n ==> table[j] == disk[base + j] == MapSector(n, wide, j);
    if n % 256 != 0 {
      forall c | 0 <= c < EntryCount(n, wide) ensures MapEntry(table, wide, c) != 0 <==> c < 2 {
        PartialRunEntries(n, wide, table, c);
      }
    } else {
      FullRunEntries(n, wide, table);
    }
  }

  /** Cluster 0 then has the marker of the map, cluster 1 ends its chain, and all others are free. */
  lemma ReservedMarkers(disk: Disk, base: nat, n: nat, wide: bool, c: nat)
    requires MapHolds(disk, base, n, wide, 0, n) && n % 256 != 0 && c < EntryCount(n, wide)
    ensures base + n <= |disk|
    ensures MapEntry(disk[base..base + n], wide, c) ==
      if c == 0 then (if wide then 0xFFFF_FFF8 else 0xFFF8)
      else if c == 1 then (if wide then 0xFFFF_FFFF else 0xFFFF)
      else 0
  {
    hide MapSector, MapEntry;
    var table := disk[base..base + n];
    assert forall j :: 0 <= j < n ==> table[j] == disk[base + j] == MapSector(n, wide, j);
    PartialRunEntries(n, wide, table, c);
  }

  /** A partition of 1GB gets a map of full runs only, so with a wrong entry. */
  lemma OneGigabyteReservesMore(disk: Disk, base: nat)
    requires MapHolds(disk, base, MapSectors(2097152), true, 0, MapSectors(2097152))
    ensures LayoutsAgree(2097152) && MapSectors(2097152) == 512 && base + 512 <= |disk|
    ensures !OnlyTwoReserved(disk[base..base + 512], true)
  {
    hide MapHolds, OnlyTwoReserved;
    ReservesExactly(disk, base, 512, true);
    assert base + 512 <= |disk| by { MapOnDisk(disk, base, 512, true); }
  }

  lemma MapOnDisk(disk: Disk, base: nat, n: nat, wide: bool)
    requires MapHolds(disk, base, n, wide, 0, n)
    ensures base + n <= |disk|
  {
  }
}
