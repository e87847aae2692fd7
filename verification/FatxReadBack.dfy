/**
 What opening and searching a freshly formatted E: partition finds.
 */
module FatxReadBack {
  import opened Types
  import opened AtaAddress
  import opened AtaDrive
  import opened Fatx
  import opened FatxLookup
  import opened FatxFormat

  const CLUSTER_COUNT: nat := 313280

  // ---- single entries ----------------------------------------------------

  /** Entry `i` of a directory lies in its first sector for i < 8. */
  function EntryIn(s: Sector, i: nat): Entry
    requires i < 8
  {
    var at := i * ENTRY_SIZE;
    Entry(s[at], s[at + 1], s[at + 2..at + 2 + FILENAME_MAX], Word32(s, at + 0x2C), Word32(s, at + 0x30))
  }

  /** Every slot of a cluster is what its 64 bytes say. */
  lemma EntryFromBytes(data: seq<Octet>, i: nat, length: Octet, attributes: Octet, field: Name, cluster: UInt, size: UInt)
    requires |data| == CLUSTER_SIZE && i < 256 && |field| == 42
    requires data[64 * i] == length && data[64 * i + 1] == attributes && data[64 * i + 2..64 * i + 44] == field
    requires data[64 * i + 44..64 * i + 48] == Bytes32(cluster) && data[64 * i + 48..64 * i + 52] == Bytes32(size)
    ensures EntryAt(data, i) == Entry(length, attributes, field, cluster, size)
  {
    hide Word32, Bytes32;
    WordOfBytes(data, 64 * i + 44, cluster);
    WordOfBytes(data, 64 * i + 48, size);
  }

  lemma EntryInFirstSector(ss: seq<Sector>, i: nat)
    requires |ss| == CLUSTER_SECTORS && i < 8
    ensures EntryAt(Flat(ss), i) == EntryIn(ss[0], i)
  {
    var data, at := Flat(ss), i * ENTRY_SIZE;
    BeginsWithFirst(ss);
    hide Flat;
    assert data[at + 2..at + 2 + FILENAME_MAX] == ss[0][at + 2..at + 2 + FILENAME_MAX];
  }

  lemma BeginsWithFirst(ss: seq<Sector>)
    requires |ss| >= 1
    ensures forall k :: 0 <= k < SECTOR ==> Flat(ss)[k] == ss[0][k]
  {
    forall k | 0 <= k < SECTOR ensures Flat(ss)[k] == ss[0][k] {
      assert k / SECTOR == 0 && k % SECTOR == k;
    }
  }

  lemma {:induction false} CStringOfName(name: Name)
    requires 0 !in name
    ensures CString(name) == name
  {
    if name != [] {
      assert name == [name[0]] + name[1..];
      CStringOfName(name[1..]);
    }
  }

  lemma SliceOfSlice(t: seq<Octet>, at: nat, n: nat, i: nat, j: nat)
    requires at + n <= |t| && i <= j <= n
    ensures t[at..at + n][i..j] == t[at + i..at + j]
  {
    var a, b := t[at..at + n][i..j], t[at + i..at + j];
    forall k | 0 <= k < |a| ensures a[k] == b[k] {
      assert t[at..at + n][i + k] == t[at + i + k];
    }
  }

  /** An entry that was put reads back as a live directory of that name and cluster. */
  lemma PutThenRead(s: Sector, n: nat, name: Name, cluster: UInt)
    requires n < 8 && 1 <= |name| <= FILENAME_MAX && 0 !in name
    ensures var e := EntryIn(PutEntry(s, n, name, cluster), n);
      && Live(e) && e.IsDirectory() && e.cluster == cluster && e.size == 0
      && (forall x :: e.Matches(x) <==> SameName(name, x))
  {
    hide PutEntry, NameField, EntryBytes, EntryIn;
    var t, at := PutEntry(s, n, name, cluster), n * ENTRY_SIZE;
    EntryOfBytes(t, n, t[at..at + ENTRY_SIZE]);
    EntryFields(name, cluster);
    CStringOfName(name);
  }

  /** An entry is determined by its 64 bytes. */
  lemma EntryOfBytes(t: Sector, n: nat, bytes: seq<Octet>)
    requires n < 8 && bytes == t[n * ENTRY_SIZE..(n + 1) * ENTRY_SIZE]
    ensures EntryIn(t, n) == Entry(bytes[0], bytes[1], bytes[2..44], Word32(bytes, 0x2C), Word32(bytes, 0x30))
  {
    SliceOfSlice(t, n * ENTRY_SIZE, ENTRY_SIZE, 2, 44);
  }

  lemma EntryFields(name: Name, cluster: UInt)
    requires |name| <= FILENAME_MAX
    ensures var b := EntryBytes(name, cluster);
      && b[0] == |name| && b[1] == ATTR_DIRECTORY && b[2..44] == NameField(name)
      && Word32(b, 0x2C) == cluster && Word32(b, 0x30) == 0
  {
    hide NameField, Word32;
    var b := EntryBytes(name, cluster);
    assert b[0x2C..0x30] == Bytes32(cluster) && b[0x30..0x34] == Bytes32(0);
    WordOfBytes(b, 0x2C, cluster);
    WordOfBytes(b, 0x30, 0);
  }

  /** Putting an entry leaves the other slots of the sector alone. */
  lemma PutKeepsOthers(s: Sector, n: nat, name: Name, cluster: UInt, i: nat)
    requires n < 8 && i < 8 && i != n && |name| <= FILENAME_MAX
    ensures EntryIn(PutEntry(s, n, name, cluster), i) == EntryIn(s, i)
  {
    hide EntryBytes;
    var t, at := PutEntry(s, n, name, cluster), i * ENTRY_SIZE;
    assert forall k :: at <= k < at + ENTRY_SIZE ==> t[k] == s[k];
    assert t[at + 2..at + 2 + FILENAME_MAX] == s[at + 2..at + 2 + FILENAME_MAX];
  }

  lemma EmptySlot(b: Octet, i: nat)
    requires i < 8 && (b == 0 || b == 0xFF)
    ensures EntryIn(Filled(b), i).IsEnd()
  {
  }

  // ---- the chain map -----------------------------------------------------

  /** The partition that OpenFATXPartition finds on a formatted disk. */
  function Volume(disk: Disk): (p: Partition)
    requires Holds(disk, 0, FORMATTED)
  {
    Partition(SECTOR_STORE, CLUSTER_COUNT, 4, Flat(disk[SECTOR_STORE + TABLE_AT..SECTOR_STORE + ROOT_AT]), 0x133000)
  }

  lemma HeaderHasMagic(disk: Disk, start: nat, volume: Octet, clusterSectors: Octet)
    requires start + 8 <= |disk| && disk[start] == HeaderSector(volume, clusterSectors)
    ensures Word32(Flat(disk[start..start + 8]), 0) == 0x58544146
  {
    var header := Flat(disk[start..start + 8]);
    assert forall k :: 0 <= k < 4 ==>
      header[k] == disk[start..start + 8][k / SECTOR][k % SECTOR] == HeaderSector(volume, clusterSectors)[k];
    assert header[0..4] == Bytes32(0x58544146);
    WordOfBytes(header, 0, 0x58544146);
  }

  lemma OpensAsVolume(disk: Disk)
    requires Holds(disk, 0, FORMATTED)
    ensures TableSize(STORE_SIZE) == TABLE_SECTORS * SECTOR
    ensures Opened(disk, SECTOR_STORE, STORE_SIZE) == Some(Volume(disk)) && Mounted(Volume(disk))
  {
    hide PutEntry, Filled, FirstTableSector;
    assert ClusterCount(STORE_SIZE) == CLUSTER_COUNT;
    assert RoundedUp(CLUSTER_COUNT * 4) == TABLE_SECTORS * SECTOR;
    assert disk[SECTOR_STORE] == Wanted(0);
    HeaderHasMagic(disk, SECTOR_STORE, 0x45, 0x20);
  }

  lemma TableByte(disk: Disk, i: nat)
    requires Holds(disk, 0, FORMATTED) && i < SECTOR * TABLE_SECTORS
    ensures Volume(disk).table[i] == if i == 0 then 0xF8 else if i < 28 then 0xFF else 0
  {
    hide PutEntry, HeaderSector, RootSector;
    var ss := disk[SECTOR_STORE + TABLE_AT..SECTOR_STORE + ROOT_AT];
    var k := i / SECTOR;
    assert ss[k] == disk[SECTOR_STORE + TABLE_AT + k] == Wanted(TABLE_AT + k);
    assert Flat(ss)[i] == ss[k][i % SECTOR];
  }

  /** Clusters 0 to 6 are reserved, one-cluster chains; every other one is free. */
  lemma FormattedTable(disk: Disk, c: nat)
    requires Holds(disk, 0, FORMATTED) && c < CLUSTER_COUNT
    ensures TableEntry(Volume(disk), c) == if c == 0 then 0xFFFF_FFF8 else if c < 7 then 0xFFFF_FFFF else 0
  {
    hide Flat;
    TableByte(disk, 4 * c);
    TableByte(disk, 4 * c + 1);
    TableByte(disk, 4 * c + 2);
    TableByte(disk, 4 * c + 3);
  }

  /** Each of the six formatted clusters is a chain of its own. */
  lemma FormattedChain(disk: Disk, c: nat)
    requires Holds(disk, 0, FORMATTED) && 1 <= c <= 6
    ensures InRange(Volume(disk), disk, c) && IsChain(Volume(disk), disk, c, [c])
  {
    hide TableEntry, Wanted;
    FormattedTable(disk, c);
    assert [c][1..] == [];
  }

  // ---- the directories ---------------------------------------------------

  /** The slots of a formatted directory. */
  function DirectoryOf(disk: Disk, c: nat): (r: seq<Entry>)
    requires Holds(disk, 0, FORMATTED) && 1 <= c <= 6
    ensures |r| == CLUSTER_ENTRIES
  {
    FormattedChain(disk, c);
    Slots(Volume(disk), disk, [c])
  }

  lemma SlotInFirstSector(disk: Disk, c: nat, i: nat)
    requires Holds(disk, 0, FORMATTED) && 1 <= c <= 6 && i < 8
    ensures DirectoryOf(disk, c)[i] == EntryIn(Wanted(ROOT_AT + 32 * (c - 1)), i)
  {
    hide EntryAt, EntryIn, Wanted, Flat;
    FormattedChain(disk, c);
    var p := Volume(disk);
    var lba := ClusterLba(p, c);
    assert lba == SECTOR_STORE + ROOT_AT + 32 * (c - 1);
    assert [c][i / CLUSTER_ENTRIES] == c && i % CLUSTER_ENTRIES == i;
    EntryInFirstSector(disk[lba..lba + CLUSTER_SECTORS], i);
  }

  /** A directory with one entry and then the end marker. */
  lemma SearchOne(slots: seq<Entry>, name: Name, x: Name)
    requires |slots| >= 2 && Live(slots[0]) && slots[1].IsEnd()
    requires slots[0].Matches(x) <==> SameName(name, x)
    ensures Search(slots, x, false, 0) == if SameName(name, x) then Hit(0) else AtEnd
  {
    hide Entry.Matches, SameName;
    assert Search(slots, x, false, 1) == AtEnd;
  }

  /** An empty directory. */
  lemma EmptyDirectory(disk: Disk, c: nat, x: Name)
    requires Holds(disk, 0, FORMATTED) && (c == 3 || c == 5 || c == 6)
    ensures FoundDir(DirectoryOf(disk, c), x) == -1
  {
    hide PutEntry, HeaderSector, FirstTableSector, Filled, EntryIn;
    SlotInFirstSector(disk, c, 0);
    EmptySlot(0, 0);
  }

  lemma OneEntry(disk: Disk, c: nat, name: Name, cluster: UInt, x: Name)
    requires Holds(disk, 0, FORMATTED) && 1 <= c <= 6 && 1 <= |name| <= FILENAME_MAX && 0 !in name
    requires cluster < 0x8000_0000 && Wanted(ROOT_AT + 32 * (c - 1)) == PutEntry(Filled(0), 0, name, cluster)
    ensures FoundDir(DirectoryOf(disk, c), x) == if SameName(name, x) then cluster else -1
  {
    hide PutEntry, Wanted, Filled, EntryIn, Entry.Matches, SameName, Search, DirectoryOf;
    SlotInFirstSector(disk, c, 0);
    SlotInFirstSector(disk, c, 1);
    PutThenRead(Filled(0), 0, name, cluster);
    PutKeepsOthers(Filled(0), 0, name, cluster, 1);
    EmptySlot(0, 1);
    SearchOne(DirectoryOf(disk, c), name, x);
  }

  lemma RootSlots(disk: Disk)
    requires Holds(disk, 0, FORMATTED)
    ensures var s := DirectoryOf(disk, 1);
      && Live(s[0]) && s[0].IsDirectory() && s[0].cluster == 2 && (forall x :: s[0].Matches(x) <==> SameName(TDATA, x))
      && Live(s[1]) && s[1].IsDirectory() && s[1].cluster == 4 && (forall x :: s[1].Matches(x) <==> SameName(UDATA, x))
      && Live(s[2]) && s[2].IsDirectory() && s[2].cluster == 6 && (forall x :: s[2].Matches(x) <==> SameName(CACHE, x))
      && s[3].IsEnd()
  {
    hide PutEntry, Filled, EntryIn, Entry.Matches, SameName, DirectoryOf, Wanted;
    var s0 := Filled(0xFF);
    var s1 := PutEntry(s0, 0, TDATA, 2);
    var s2 := PutEntry(s1, 1, UDATA, 4);
    var s3 := PutEntry(s2, 2, CACHE, 6);
    assert Wanted(ROOT_AT) == s3 by { WantedRoot(); }
    SlotInFirstSector(disk, 1, 0);
    SlotInFirstSector(disk, 1, 1);
    SlotInFirstSector(disk, 1, 2);
    SlotInFirstSector(disk, 1, 3);
    PutThenRead(s0, 0, TDATA, 2);
    PutThenRead(s1, 1, UDATA, 4);
    PutThenRead(s2, 2, CACHE, 6);
    PutKeepsOthers(s1, 1, UDATA, 4, 0);
    PutKeepsOthers(s2, 2, CACHE, 6, 0);
    PutKeepsOthers(s2, 2, CACHE, 6, 1);
    PutKeepsOthers(s0, 0, TDATA, 2, 3);
    PutKeepsOthers(s1, 1, UDATA, 4, 3);
    PutKeepsOthers(s2, 2, CACHE, 6, 3);
    EmptySlot(0xFF, 3);
  }

  lemma WantedRoot()
    ensures Wanted(ROOT_AT) == PutEntry(PutEntry(PutEntry(Filled(0xFF), 0, TDATA, 2), 1, UDATA, 4), 2, CACHE, 6)
  {
    hide PutEntry, Filled, HeaderSector, FirstTableSector;
  }

  lemma SearchThree(s: seq<Entry>, a: Name, b: Name, c: Name, x: Name)
    requires |s| >= 4 && Live(s[0]) && Live(s[1]) && Live(s[2]) && s[3].IsEnd()
    requires s[0].Matches(x) <==> SameName(a, x)
    requires s[1].Matches(x) <==> SameName(b, x)
    requires s[2].Matches(x) <==> SameName(c, x)
    ensures Search(s, x, false, 0) ==
      if SameName(a, x) then Hit(0) else if SameName(b, x) then Hit(1) else if SameName(c, x) then Hit(2) else AtEnd
  {
    hide Entry.Matches, SameName;
    assert Search(s, x, false, 3) == AtEnd;
    assert Search(s, x, false, 2) == if SameName(c, x) then Hit(2) else AtEnd;
    assert Search(s, x, false, 1) == if SameName(b, x) then Hit(1) else Search(s, x, false, 2);
  }

  // ---- the whole round trip ----------------------------------------------

  /** What FATXFindDir must answer for a name in one of the formatted clusters. */
  function Answer(c: nat, x: Name): int {
    match c
    case 1 => if SameName(TDATA, x) then 2 else if SameName(UDATA, x) then 4 else if SameName(CACHE, x) then 6 else -1
    case 2 => if SameName(FFFE0000, x) then 3 else -1
    case 4 => if SameName(MUSIC, x) then 5 else -1
    case _ => -1
  }

  /** After an error-free format, for every earlier disk contents: the partition
      opens, its chain map reserves clusters 0 to 6 and nothing else, and a
      search for any name in any of its directories finds exactly
      TDATA/FFFE0000, UDATA/Music and CACHE, at clusters 2/3, 4/5 and 6. */
  lemma FormatThenReadBack(disk: Disk)
    requires Holds(disk, 0, FORMATTED)
    ensures TableSize(STORE_SIZE) == TABLE_SECTORS * SECTOR
    ensures Opened(disk, SECTOR_STORE, STORE_SIZE) == Some(Volume(disk)) && Mounted(Volume(disk))
    ensures forall c :: 7 <= c < CLUSTER_COUNT ==> TableEntry(Volume(disk), c) == 0
    ensures forall c :: 1 <= c <= 6 ==> IsChain(Volume(disk), disk, c, [c])
    ensures forall c, x :: 1 <= c <= 6 ==> FoundDir(DirectoryOf(disk, c), x) == Answer(c, x)
  {
    hide Wanted, Holds, TableEntry, IsChain, FoundDir, DirectoryOf, SameName, Flat;
    OpensAsVolume(disk);
    forall c | 7 <= c < CLUSTER_COUNT ensures TableEntry(Volume(disk), c) == 0 {
      FormattedTable(disk, c);
    }
    forall c | 1 <= c <= 6 ensures IsChain(Volume(disk), disk, c, [c]) {
      FormattedChain(disk, c);
    }
    forall c, x | 1 <= c <= 6 ensures FoundDir(DirectoryOf(disk, c), x) == Answer(c, x) {
      DirectoryAnswers(disk, c, x);
    }
  }

  lemma DirectoryAnswers(disk: Disk, c: nat, x: Name)
    requires Holds(disk, 0, FORMATTED) && 1 <= c <= 6
    ensures FoundDir(DirectoryOf(disk, c), x) == Answer(c, x)
  {
    hide PutEntry, Filled, SameName, DirectoryOf, Entry.Matches, Search, HeaderSector, FirstTableSector;
    match c
    case 1 =>
      RootSlots(disk);
      SearchThree(DirectoryOf(disk, 1), TDATA, UDATA, CACHE, x);
    case 2 => OneEntry(disk, 2, FFFE0000, 3, x);
    case 4 => OneEntry(disk, 4, MUSIC, 5, x);
    case _ => EmptyDirectory(disk, c, x);
  }
}
