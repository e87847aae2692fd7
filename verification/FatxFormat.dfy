/**
 Formatting the E: partition (FATXFormatDriveE in fs/fatx/BootFATX.c).
 */
module FatxFormat {
  import opened Types
  import opened AtaAddress
  import opened AtaDrive
  import opened Fatx
  import opened FatxLookup

  const SECTOR_STORE: nat := 0x0055F400
  const STORE_SIZE: nat := 0x131F00000
  const WRITE_RETRY: nat := 3

  // Sectors relative to the start of the partition.
  const TABLE_AT: nat := 8
  const TABLE_SECTORS: nat := 2448
  const ROOT_AT: nat := 2456
  const FORMATTED: nat := 2680

  const TDATA: Name := [0x54, 0x44, 0x41, 0x54, 0x41]
  const UDATA: Name := [0x55, 0x44, 0x41, 0x54, 0x41]
  const CACHE: Name := [0x43, 0x41, 0x43, 0x48, 0x45]
  const FFFE0000: Name := [0x46, 0x46, 0x46, 0x45, 0x30, 0x30, 0x30, 0x30]
  const MUSIC: Name := [0x4D, 0x75, 0x73, 0x69, 0x63]

  // ---- sector images -----------------------------------------------------

  function Filled(b: Octet): Sector {
    seq(512, i => b)
  }

  function Repeat(b: Octet, n: nat): (r: seq<Octet>)
    ensures |r| == n
  {
    seq(n, i => b)
  }

  function Bytes32(v: UInt): (r: seq<Octet>)
    ensures |r| == 4
  {
    [v % 0x100, v / 0x100 % 0x100, v / 0x1_0000 % 0x100, v / 0x100_0000 % 0x100]
  }

  lemma WordOfBytes(s: seq<Octet>, at: nat, v: UInt)
    requires at + 4 <= |s| && s[at..at + 4] == Bytes32(v)
    ensures Word32(s, at) == v
  {
    assert s[at] == s[at..at + 4][0] && s[at + 1] == s[at..at + 4][1];
    assert s[at + 2] == s[at..at + 4][2] && s[at + 3] == s[at..at + 4][3];
    SplitWord(v);
  }

  lemma SplitWord(v: UInt)
    ensures v % 0x100 + 0x100 * (v / 0x100 % 0x100) + 0x1_0000 * (v / 0x1_0000 % 0x100)
      + 0x100_0000 * (v / 0x100_0000 % 0x100) == v
  {
    var a := v / 0x100;
    var b := a / 0x100;
    var c := b / 0x100;
    assert v / 0x1_0000 == b && v / 0x100_0000 == c;
    assert c % 0x100 == c;
  }

  /** The first sector of a partition header. */
  function HeaderSector(volume: Octet, clusterSectors: Octet): Sector {
    Bytes32(0x58544146) + [volume, 0, 0, 0] + [clusterSectors, 0, 0, 0] + [1, 0] + [0, 0, 0, 0] + Repeat(0xFF, 494)
  }

  /** Magic number, volume, sectors per cluster and number of maps, then erased bytes. */
  lemma HeaderFields(volume: Octet, clusterSectors: Octet)
    ensures var h := HeaderSector(volume, clusterSectors);
      && h[..4] == [0x46, 0x41, 0x54, 0x58] && Word32(h, 4) == volume && Word32(h, 8) == clusterSectors
      && Word16(h, 12) == 1 && Word32(h, 14) == 0 && forall i :: 18 <= i < 512 ==> h[i] == 0xFF
  {
  }

  /** A directory name as it is stored: strncpy pads with NULs, then 0xFF ends it. */
  function NameField(name: Name): (r: seq<Octet>)
    requires |name| <= FILENAME_MAX
    ensures |r| == FILENAME_MAX && r[..|name|] == name
    ensures forall k :: |name| <= k < 42 ==> r[k] == if k == |name| then 0xFF else 0
  {
    if |name| < FILENAME_MAX then name + [0xFF] + Repeat(0, FILENAME_MAX - |name| - 1) else name
  }

  /** The 64 bytes that FATXCreateDirectoryEntry fills in. */
  function EntryBytes(name: Name, cluster: UInt): (r: seq<Octet>)
    requires |name| <= FILENAME_MAX
    ensures |r| == ENTRY_SIZE && r[52..] == [0x53, 0x51, 0x42, 0x04, 0x53, 0x51, 0x42, 0x04, 0x53, 0x51, 0x42, 0x04]
  {
    var stamp := [0x53, 0x51, 0x42, 0x04];
    [|name|, ATTR_DIRECTORY] + NameField(name) + Bytes32(cluster) + [0, 0, 0, 0] + stamp + stamp + stamp
  }

  /** FATXCreateDirectoryEntry */
  function PutEntry(s: Sector, n: nat, name: Name, cluster: UInt): (r: Sector)
    requires n < 8 && |name| <= FILENAME_MAX
    ensures r[n * ENTRY_SIZE..(n + 1) * ENTRY_SIZE] == EntryBytes(name, cluster)
    ensures forall i :: 0 <= i < 512 && !(n * ENTRY_SIZE <= i < (n + 1) * ENTRY_SIZE) ==> r[i] == s[i]
  {
    s[..n * ENTRY_SIZE] + EntryBytes(name, cluster) + s[(n + 1) * ENTRY_SIZE..]
  }

  /** The start of the chain map: clusters 0 to 6 taken. */
  function FirstTableSector(): Sector {
    [0xF8] + Repeat(0xFF, 27) + Repeat(0, 484)
  }

  function RootSector(): Sector {
    PutEntry(PutEntry(PutEntry(Filled(0xFF), 0, TDATA, 2), 1, UDATA, 4), 2, CACHE, 6)
  }

  /** What sector `i` of a freshly formatted E: holds. */
  function Wanted(i: nat): Sector {
    if i == 0 then HeaderSector(0x45, 0x20)
    else if i < TABLE_AT then Filled(0xFF)
    else if i == TABLE_AT then FirstTableSector()
    else if i == ROOT_AT then RootSector()
    else if i == ROOT_AT + 32 then PutEntry(Filled(0), 0, FFFE0000, 3)
    else if i == ROOT_AT + 96 then PutEntry(Filled(0), 0, MUSIC, 5)
    else Filled(0)
  }

  /** Sectors lo to hi of the partition are as wanted. */
  predicate Holds(disk: Disk, lo: nat, hi: nat) {
    && SECTOR_STORE + hi <= |disk|
    && forall a :: SECTOR_STORE + lo <= a < SECTOR_STORE + hi ==> disk[a] == Wanted(a - SECTOR_STORE)
  }

  // ---- formatting --------------------------------------------------------

  /** The device is ready, and the sectors to format lie on the disk and have
      expressible addresses. */
  ghost predicate Formattable(d: Drive)
    reads d
  {
    && d.Ok() && d.Idle() && SECTOR_STORE + FORMATTED <= |d.disk|
    && forall a :: SECTOR_STORE <= a < SECTOR_STORE + FORMATTED ==> Expressible(a, d.geometry)
  }

  predicate BootBlock(disk: Disk, base: nat, header: Sector) {
    && base + TABLE_AT <= |disk|
    && forall a :: base <= a < base + TABLE_AT ==> disk[a] == if a == base then header else Filled(0xFF)
  }

  /** The boot block: eight erased sectors, then the header over the first;
      `clean` if that was written, too. */
  method WriteHeader(d: Drive, base: nat, header: Sector) returns (ok: bool, clean: bool)
    requires d.Ok() && d.Idle() && base + TABLE_AT <= |d.disk|
    requires forall a :: base <= a < base + TABLE_AT ==> Expressible(a, d.geometry)
    modifies d
    ensures d.Ok() && d.Idle() && SameOutside(d.disk, old(d.disk), base, base + TABLE_AT)
    ensures clean ==> ok && BootBlock(d.disk, base, header)
    ensures Reliable(d.faults, WRITE_RETRY) ==> clean
  {
    hide Filled, Expressible, Passes;
    ok, clean := false, false;
    for i := 0 to TABLE_AT
      invariant d.Ok() && d.Idle() && SameOutside(d.disk, old(d.disk), base, base + TABLE_AT)
      invariant forall a :: base <= a < base + i ==> d.disk[a] == Filled(0xFF)
    {
      var status := d.WriteSector(Filled(0xFF), base + i, WRITE_RETRY);
      if status != 0 { return; }
    }
    var status := d.WriteSector(header, base, WRITE_RETRY);
    ok, clean := true, status == 0;
  }

  /** A buffer of `n` equal sectors. */
  function Copies(s: Sector, n: nat): (r: seq<Sector>)
    ensures |r| == n && forall i :: 0 <= i < n ==> r[i] == s
  {
    seq(n, i => s)
  }

  /** The chain map: nine runs of 256 empty sectors, then the first 144. */
  method WriteTable(d: Drive) returns (ok: bool)
    requires Formattable(d)
    modifies d
    ensures Formattable(d)
    ensures SameOutside(d.disk, old(d.disk), SECTOR_STORE + TABLE_AT, SECTOR_STORE + ROOT_AT)
    ensures ok ==> Holds(d.disk, TABLE_AT, ROOT_AT)
    ensures Reliable(d.faults, WRITE_RETRY) ==> ok
  {
    hide HeaderSector, FirstTableSector, PutEntry, Filled, RootSector, Expressible, Passes, BlockCount;
    ok := false;
    var buffer := Copies(Filled(0), 256);
    SendsWhatItAnnounces(SECTOR_STORE + 8, 144, d.blockSize);
    for i := 0 to 9
      invariant Formattable(d)
      invariant SameOutside(d.disk, old(d.disk), SECTOR_STORE + TABLE_AT, SECTOR_STORE + ROOT_AT)
      invariant forall a :: SECTOR_STORE + 152 <= a < SECTOR_STORE + 152 + 256 * i ==> d.disk[a] == Filled(0)
    {
      SendsWhatItAnnounces(SECTOR_STORE + 8 + 144 + 256 * i, 256, d.blockSize);
      var status := d.WriteMultiple(buffer, SECTOR_STORE + 8 + 144 + 256 * i, 256, WRITE_RETRY);
      if status != 0 { return; }
    }
    buffer := buffer[0 := FirstTableSector()];
    var status := d.WriteMultiple(buffer, SECTOR_STORE + 8, 144, WRITE_RETRY);
    ok := status == 0;
  }

  /** Seven empty clusters. */
  method ClearClusters(d: Drive) returns (ok: bool)
    requires Formattable(d)
    modifies d
    ensures Formattable(d)
    ensures SameOutside(d.disk, old(d.disk), SECTOR_STORE + ROOT_AT, SECTOR_STORE + FORMATTED)
    ensures ok ==> forall a :: SECTOR_STORE + ROOT_AT <= a < SECTOR_STORE + FORMATTED ==> d.disk[a] == Filled(0)
    ensures Reliable(d.faults, WRITE_RETRY) ==> ok
  {
    hide Filled, Expressible, Passes, BlockCount;
    SendsWhatItAnnounces(SECTOR_STORE + ROOT_AT, 224, d.blockSize);
    var status := d.WriteMultiple(Copies(Filled(0), 224), SECTOR_STORE + ROOT_AT, 224, WRITE_RETRY);
    ok := status == 0;
  }

  /** The directories, over the first sectors of three empty clusters. */
  method PutDirectories(d: Drive) returns (ok: bool)
    requires Formattable(d)
    requires forall a :: SECTOR_STORE + ROOT_AT <= a < SECTOR_STORE + FORMATTED ==> d.disk[a] == Filled(0)
    modifies d
    ensures Formattable(d)
    ensures SameOutside(d.disk, old(d.disk), SECTOR_STORE + ROOT_AT, SECTOR_STORE + FORMATTED)
    ensures ok ==> Holds(d.disk, ROOT_AT, FORMATTED)
    ensures Reliable(d.faults, WRITE_RETRY) ==> ok
  {
    hide HeaderSector, FirstTableSector, PutEntry, Filled, Expressible, Passes;
    var buffer := Filled(0xFF);
    buffer := PutEntry(buffer, 0, TDATA, 2);
    buffer := PutEntry(buffer, 1, UDATA, 4);
    buffer := PutEntry(buffer, 2, CACHE, 6);
    var status := d.WriteSector(buffer, SECTOR_STORE + ROOT_AT, WRITE_RETRY);
    if status != 0 { return false; }
    buffer := PutEntry(Filled(0), 0, FFFE0000, 3);
    status := d.WriteSector(buffer, SECTOR_STORE + ROOT_AT + 32, WRITE_RETRY);
    if status != 0 { return false; }
    buffer := PutEntry(Filled(0), 0, MUSIC, 5);
    status := d.WriteSector(buffer, SECTOR_STORE + ROOT_AT + 32 + 32 + 32, WRITE_RETRY);
    return status == 0;
  }

  /** Seven empty clusters, then the directories in them. */
  method WriteDirectories(d: Drive) returns (ok: bool)
    requires Formattable(d)
    modifies d
    ensures Formattable(d)
    ensures SameOutside(d.disk, old(d.disk), SECTOR_STORE + ROOT_AT, SECTOR_STORE + FORMATTED)
    ensures ok ==> Holds(d.disk, ROOT_AT, FORMATTED)
    ensures Reliable(d.faults, WRITE_RETRY) ==> ok
  {
    hide Filled, Expressible, Holds, Reliable;
    ok := ClearClusters(d);
    if ok { ok := PutDirectories(d); }
  }

  // ---- the boot record ---------------------------------------------------

  const BRFR_AT: nat := 3
  const BRFR_END: nat := 1024

  function BrfrSector(): Sector {
    [0x42, 0x52, 0x46, 0x52] + Repeat(0, 508)
  }

  /** FATXSetBRFR: clears the first 512KB behind the partition table and signs sector 3. */
  method SetBrfr(d: Drive) returns (ok: bool)
    requires d.Ok() && d.Idle() && BRFR_END <= |d.disk|
    requires forall a :: 1 <= a < BRFR_END ==> Expressible(a, d.geometry)
    modifies d
    ensures d.Ok() && d.Idle() && SameOutside(d.disk, old(d.disk), 1, BRFR_END)
    ensures ok ==> forall a :: 1 <= a < BRFR_END ==> d.disk[a] == if a == BRFR_AT then BrfrSector() else Filled(0)
    ensures ok ==> d.disk[3][..4] == [0x42, 0x52, 0x46, 0x52]
    ensures Reliable(d.faults, WRITE_RETRY) ==> ok
  {
    assert BrfrSector()[..4] == [0x42, 0x52, 0x46, 0x52];
    hide Filled, BrfrSector, Expressible, Passes;
    ok := false;
    for counter := 1 to BRFR_END
      invariant d.Ok() && d.Idle() && SameOutside(d.disk, old(d.disk), 1, BRFR_END)
      invariant forall a :: 1 <= a < counter ==> d.disk[a] == Filled(0)
    {
      var status := d.WriteSector(Filled(0), counter, WRITE_RETRY);
      if status != 0 { return; }
    }
    var status := d.WriteSector(BrfrSector(), BRFR_AT, WRITE_RETRY);
    ok := status == 0;
  }

  /** Only the partition has changed and, on a drive that was not an Xbox one, the first 512KB. */
  predicate SameElsewhere(disk: Disk, was: Disk, xboxFs: bool) {
    && |disk| == |was|
    && forall i :: 0 <= i < |disk| && !(SECTOR_STORE <= i < SECTOR_STORE + FORMATTED) && (xboxFs || !(1 <= i < BRFR_END)) ==>
         disk[i] == was[i]
  }

  /** FATXFormatDriveE; `clean` is false as soon as one write to the partition
      failed, `nowXboxFs` says whether the drive is taken for an Xbox one. */
  method FormatDriveE(d: Drive, xboxFs: bool) returns (clean: bool, nowXboxFs: bool)
    requires Formattable(d) && (!xboxFs ==> forall a :: 1 <= a < BRFR_END ==> Expressible(a, d.geometry))
    modifies d
    ensures d.Ok() && d.Idle() && SameElsewhere(d.disk, old(d.disk), xboxFs)
    ensures clean ==> Holds(d.disk, 0, FORMATTED)
    ensures xboxFs ==> nowXboxFs
    ensures nowXboxFs && !xboxFs ==> d.disk[BRFR_AT] == BrfrSector()
    ensures Reliable(d.faults, WRITE_RETRY) ==> clean && nowXboxFs && Holds(d.disk, 0, FORMATTED)
  {
    hide Reliable, Expressible, HeaderSector, FirstTableSector, PutEntry, Filled, RootSector;
    nowXboxFs := xboxFs;
    if !xboxFs { nowXboxFs := SetBrfr(d); }
    var ok;
    ok, clean := WriteHeader(d, SECTOR_STORE, HeaderSector(0x45, 0x20));
    // A failure of the header itself is only reported; formatting goes on.
    if !ok { return false, nowXboxFs; }
    ok := WriteTable(d);
    if !ok { return false, nowXboxFs; }
    ok := WriteDirectories(d);
    clean := clean && ok;
  }
}
