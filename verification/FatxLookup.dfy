/**
 Finding names in FATX directories (fs/fatx/BootFATX.c): FATXFindDir and
 _FATXFindFile against the abstract directory tree they walk.
 */
module FatxLookup {
  import opened Types
  import opened AtaDrive
  import opened Fatx

  type Name = seq<Octet>

  const SLASH: Octet := 0x2F
  const BACKSLASH: Octet := 0x5C

  // ---- directory entries -------------------------------------------------

  datatype Entry = Entry(length: Octet, attributes: Octet, field: Name, cluster: nat, size: nat) {
    /** checkForLastDirectoryEntry */
    predicate IsEnd() { length == 0xFF || length == 0 }
    predicate IsDeleted() { length == 0xE5 }
    predicate HasBadLength() { length < 1 || length > FILENAME_MAX }
    predicate IsDirectory() { attributes / ATTR_DIRECTORY % 2 == 1 }

    /** The stored name as a C string. */
    function Name(): Name
      requires length <= |field|
    {
      CString(field[..length])
    }

    /** A name match: same length, same letters apart from case. */
    predicate Matches(name: Name) {
      length <= |field| && SameName(Name(), name)
    }
  }

  /** The bytes in front of the first NUL. */
  function CString(s: Name): (r: Name)
    ensures |r| <= |s| && 0 !in r && r == s[..|r|] && (|r| < |s| ==> s[|r|] == 0)
  {
    if s == [] || s[0] == 0 then [] else [s[0]] + CString(s[1..])
  }

  /** ASCII letters folded to capitals. */
  function Fold(b: Octet): Octet {
    if 0x61 <= b <= 0x7A then b - 0x20 else b
  }

  /** The length test and _strncasecmp. */
  predicate SameName(a: Name, b: Name) {
    |a| == |b| && forall i :: 0 <= i < |a| ==> Fold(a[i]) == Fold(b[i])
  }

  /** The same letter, or its other case. */
  predicate SameLetter(a: Octet, b: Octet) {
    a == b || (0x41 <= a <= 0x5A && b == a + 0x20) || (0x41 <= b <= 0x5A && a == b + 0x20)
  }

  /** The name as it stands in the entry's bytes: up to the stored length or the first NUL. */
  predicate SpeltAs(e: Entry, name: Name) {
    && |name| <= e.length <= |e.field| && (|name| < e.length ==> e.field[|name|] == 0)
    && forall k :: 0 <= k < |name| ==> e.field[k] != 0 && SameLetter(e.field[k], name[k])
  }

  lemma FoldExactly(a: Octet, b: Octet)
    ensures Fold(a) == Fold(b) <==> SameLetter(a, b)
  {
  }

  lemma MatchesExactly(e: Entry, name: Name)
    ensures e.Matches(name) <==> SpeltAs(e, name)
  {
    hide Fold, SameLetter;
    if e.length <= |e.field| {
      var s := e.field[..e.length];
      var c := CString(s);
      assert forall k :: 0 <= k < |c| ==> c[k] == s[k] == e.field[k] && c[k] in c;
      forall k | 0 <= k < |c| && k < |name| ensures Fold(c[k]) == Fold(name[k]) <==> SameLetter(e.field[k], name[k]) {
        FoldExactly(c[k], name[k]);
      }
    }
  }

  /** The FATXDIRINFO at entry `i` of a cluster. */
  function EntryAt(data: seq<Octet>, i: nat): Entry
    requires |data| == CLUSTER_SIZE && i < CLUSTER_ENTRIES
  {
    var at := i * ENTRY_SIZE;
    Entry(data[at], data[at + 1], data[at + 2..at + 2 + FILENAME_MAX], Word32(data, at + 0x2C), Word32(data, at + 0x30))
  }

  /** All entry slots of a directory, cluster after cluster. */
  function Slots(p: Partition, disk: Disk, ids: seq<nat>): (r: seq<Entry>)
    requires Mounted(p) && forall c :: c in ids ==> InRange(p, disk, c)
    ensures |r| == CLUSTER_ENTRIES * |ids|
    ensures forall k :: 0 <= k < |r| ==>
      r[k] == EntryAt(ClusterData(p, disk, ids[k / CLUSTER_ENTRIES]), k % CLUSTER_ENTRIES)
  {
    seq(CLUSTER_ENTRIES * |ids|, k requires 0 <= k < CLUSTER_ENTRIES * |ids| =>
      EntryAt(ClusterData(p, disk, ids[k / CLUSTER_ENTRIES]), k % CLUSTER_ENTRIES))
  }

  // ---- searching ---------------------------------------------------------

  /** How a search through the slots of a directory ends. */
  datatype Outcome = Hit(index: nat) | AtEnd | AtBadLength | Exhausted

  /** A slot that the search passes over. A strict search stops at a bad length. */
  predicate Passed(e: Entry, name: Name, strict: bool) {
    !e.IsEnd() && (e.IsDeleted() || (if e.HasBadLength() then !strict else !e.Matches(name)))
  }

  function Search(slots: seq<Entry>, name: Name, strict: bool, from: nat): (r: Outcome)
    requires from <= |slots|
    ensures r.Hit? ==> from <= r.index < |slots|
    decreases |slots| - from
  {
    if from == |slots| then Exhausted
    else
      var e := slots[from];
      if Passed(e, name, strict) then Search(slots, name, strict, from + 1)
      else if e.IsEnd() then AtEnd
      else if e.HasBadLength() then AtBadLength
      else Hit(from)
  }

  /** A live entry is one that a search can hit. */
  predicate Live(e: Entry) {
    !e.IsEnd() && !e.IsDeleted() && !e.HasBadLength()
  }

  /** A hit is the first live match with no end marker (and, for a strict
      search, no bad length) in front of it, and there is a hit whenever there
      is such a match. */
  lemma {:induction false} HitIsFirstMatch(slots: seq<Entry>, name: Name, strict: bool, from: nat, i: nat)
    requires from <= i < |slots|
    ensures Search(slots, name, strict, from) == Hit(i) <==>
      && Live(slots[i]) && slots[i].Matches(name)
      && forall j :: from <= j < i ==> Passed(slots[j], name, strict)
    decreases i - from
  {
    if from < i {
      HitIsFirstMatch(slots, name, strict, from + 1, i);
    }
  }

  /** The entries of one cluster; `base` slots lie in front of them. */
  method SearchCluster(data: seq<Octet>, name: Name, strict: bool, base: nat, ghost slots: seq<Entry>)
    returns (r: Option<Outcome>, e: Entry)
    requires |data| == CLUSTER_SIZE && base + CLUSTER_ENTRIES <= |slots|
    requires forall i :: 0 <= i < CLUSTER_ENTRIES ==> slots[base + i] == EntryAt(data, i)
    ensures r.Some? ==> r.value == Search(slots, name, strict, base) && (r.value.Hit? ==> e == slots[r.value.index])
    ensures r.None? ==> Search(slots, name, strict, base) == Search(slots, name, strict, base + CLUSTER_ENTRIES)
  {
    hide EntryAt, Entry.Matches;
    e := Entry(0, 0, [], 0, 0);
    for i := 0 to CLUSTER_ENTRIES
      invariant Search(slots, name, strict, base) == Search(slots, name, strict, base + i)
    {
      e := EntryAt(data, i);
      assert e == slots[base + i];
      if e.IsEnd() { return Some(AtEnd), e; }
      if !e.IsDeleted() {
        if e.HasBadLength() {
          if strict { return Some(AtBadLength), e; }
        } else if e.Matches(name) {
          return Some(Hit(base + i)), e;
        }
      }
    }
    r := None;
  }

  lemma SlotsOfCluster(p: Partition, disk: Disk, ids: seq<nat>, k: nat)
    requires Mounted(p) && k < |ids| && forall c :: c in ids ==> InRange(p, disk, c)
    ensures forall i :: 0 <= i < CLUSTER_ENTRIES ==>
      Slots(p, disk, ids)[CLUSTER_ENTRIES * k + i] == EntryAt(ClusterData(p, disk, ids[k]), i)
  {
    hide EntryAt, ClusterData;
  }

  /** The trail is all that the search for `name` needs: it ends there, or it
      is the whole chain. What lies behind does not matter. */
  ghost predicate Suffices(p: Partition, disk: Disk, c: int, ids: seq<nat>, name: Name, strict: bool)
    requires Mounted(p)
  {
    && IsTrail(p, disk, c, ids) && (forall d :: d in ids ==> InRange(p, disk, d))
    && (IsChain(p, disk, c, ids) || Search(Slots(p, disk, ids), name, strict, 0) != Exhausted)
  }

  lemma {:induction false} SearchExtends(slots: seq<Entry>, more: seq<Entry>, name: Name, strict: bool, from: nat)
    requires from <= |slots| && slots <= more && Search(slots, name, strict, from) != Exhausted
    ensures Search(more, name, strict, from) == Search(slots, name, strict, from)
    decreases |slots| - from
  {
    if Passed(slots[from], name, strict) { SearchExtends(slots, more, name, strict, from + 1); }
  }

  /** Every trail that suffices gives the same outcome and the same entry. */
  lemma SearchIsUnique(p: Partition, disk: Disk, c: int, ids: seq<nat>, ids': seq<nat>, name: Name, strict: bool)
    requires Mounted(p) && Suffices(p, disk, c, ids, name, strict) && Suffices(p, disk, c, ids', name, strict)
    requires |ids| <= |ids'|
    ensures var o, o' := Search(Slots(p, disk, ids), name, strict, 0), Search(Slots(p, disk, ids'), name, strict, 0);
      o == o' && (o.Hit? ==> Slots(p, disk, ids)[o.index] == Slots(p, disk, ids')[o.index])
  {
    hide Search, EntryAt, ClusterData;
    TrailsNest(p, disk, c, ids, ids');
    if ids != ids' {
      assert Slots(p, disk, ids) <= Slots(p, disk, ids');
      SearchExtends(Slots(p, disk, ids), Slots(p, disk, ids'), name, strict, 0);
    }
  }

  /** Search the clusters of a directory in turn, as FATXFindDir and _FATXFindFile do. */
  method SearchChain(p: Partition, disk: Disk, first: int, name: Name, strict: bool, ghost ids: seq<nat>)
    returns (r: Outcome, e: Entry)
    requires Mounted(p) && Suffices(p, disk, first, ids, name, strict)
    ensures r == Search(Slots(p, disk, ids), name, strict, 0)
    ensures r.Hit? ==> e == Slots(p, disk, ids)[r.index]
  {
    hide ClusterData, Next, EntryAt, IsChain, IsTrail, Slots;
    ghost var slots := Slots(p, disk, ids);
    e := Entry(0, 0, [], 0, 0);
    var clusterId, k := first, 0;
    assert ids[0..] == ids;
    while clusterId != -1
      invariant 0 <= k <= |ids| && IsTrail(p, disk, clusterId, ids[k..])
      invariant IsChain(p, disk, clusterId, ids[k..]) || Search(slots, name, strict, 0) != Exhausted
      invariant Search(slots, name, strict, 0) == Search(slots, name, strict, CLUSTER_ENTRIES * k)
      decreases |ids| - k
    {
      assert k < |ids| by { if k == |ids| { NoneLeft(p, disk, clusterId, ids); } }
      TrailStep(p, disk, clusterId, ids, k);
      var data := LoadCluster(p, disk, clusterId);
      SlotsOfCluster(p, disk, ids, k);
      var o;
      o, e := SearchCluster(data, name, strict, CLUSTER_ENTRIES * k, slots);
      if o.Some? { return o.value, e; }
      clusterId := Next(p, disk, clusterId);
      k := k + 1;
    }
    assert k == |ids| by { if k < |ids| { TrailStep(p, disk, clusterId, ids, k); } }
    r := Exhausted;
  }

  lemma NoneLeft(p: Partition, disk: Disk, c: int, ids: seq<nat>)
    requires Mounted(p)
    ensures IsChain(p, disk, c, ids[|ids|..]) ==> c == -1
  {
  }

  /** What FATXFindDir answers: the directory's cluster, -1 when the name is
      absent or a file, 0 when the chain ends without an end marker. */
  function FoundDir(slots: seq<Entry>, name: Name): int {
    match Search(slots, name, false, 0)
    case Hit(i) => if slots[i].IsDirectory() then AsInt(slots[i].cluster) else -1
    case AtEnd => -1
    case AtBadLength => -1
    case Exhausted => 0
  }

  lemma {:induction false} SearchSkips(slots: seq<Entry>, name: Name, strict: bool, from: nat, i: nat)
    requires from <= i <= |slots| && forall j :: from <= j < i ==> Passed(slots[j], name, strict)
    ensures Search(slots, name, strict, from) == Search(slots, name, strict, i)
    decreases i - from
  {
    if from < i { SearchSkips(slots, name, strict, from + 1, i); }
  }

  /** By its first byte, a slot in front of the one that decides: deleted, a
      name that is not the one looked for or, if that does not matter, no
      proper name at all. */
  predicate Ahead(e: Entry, name: Name, strict: bool) {
    e.length == 0xE5 || (1 <= e.length <= 42 && !SpeltAs(e, name)) || (!strict && 43 <= e.length <= 0xFE)
  }

  /** The first slot that is not such a one decides: an end marker, 0 or 0xFF,
      ends the search, a proper length with the name hits, any other length
      stops a strict search. */
  lemma SearchDecides(slots: seq<Entry>, name: Name, strict: bool, i: nat)
    requires i <= |slots| && forall j :: 0 <= j < i ==> Ahead(slots[j], name, strict)
    ensures Search(slots, name, strict, 0) ==
      if i == |slots| then Exhausted
      else if slots[i].length == 0 || slots[i].length == 0xFF then AtEnd
      else if 1 <= slots[i].length <= 42 && SpeltAs(slots[i], name) then Hit(i)
      else if strict && 43 <= slots[i].length <= 0xFE && slots[i].length != 0xE5 then AtBadLength
      else Search(slots, name, strict, i + 1)
  {
    hide SpeltAs, Entry.Matches;
    forall j | 0 <= j < i ensures Passed(slots[j], name, strict) { MatchesExactly(slots[j], name); }
    SearchSkips(slots, name, strict, 0, i);
    if i < |slots| { MatchesExactly(slots[i], name); }
  }

  /** The first slot that is not passed over decides: a match answers with its
      cluster, or -1 for a file, an end marker with -1; without one it is 0. */
  lemma FoundDirExactly(slots: seq<Entry>, name: Name, i: nat)
    requires i <= |slots| && forall j :: 0 <= j < i ==> Passed(slots[j], name, false)
    ensures i == |slots| ==> FoundDir(slots, name) == 0
    ensures i < |slots| && slots[i].IsEnd() ==> FoundDir(slots, name) == -1
    ensures i < |slots| && Live(slots[i]) && slots[i].Matches(name) ==>
      FoundDir(slots, name) == if slots[i].attributes / 16 % 2 == 1 then AsInt(slots[i].cluster) else -1
  {
    SearchSkips(slots, name, false, 0, i);
  }

  /** FATXFindDir */
  method FindDir(p: Partition, disk: Disk, first: int, name: Name, ghost ids: seq<nat>) returns (r: int)
    requires Mounted(p) && Suffices(p, disk, first, ids, name, false)
    ensures r == FoundDir(Slots(p, disk, ids), name)
  {
    hide Slots, IsChain, IsTrail, Search;
    var o, e := SearchChain(p, disk, first, name, false, ids);
    match o {
      case Hit(_) => r := if e.IsDirectory() then AsInt(e.cluster) else -1;
      case AtEnd => r := -1;
      case AtBadLength => r := -1;
      case Exhausted => r := 0;
    }
  }

  // ---- paths -------------------------------------------------------------

  /** The position of the first slash, or the length. */
  function FirstSlash(path: Name): (r: nat)
    ensures r <= |path| && SLASH !in path[..r] && (r < |path| ==> path[r] == SLASH)
  {
    if path == [] || path[0] == SLASH then 0
    else
      var r := FirstSlash(path[1..]);
      assert path[..r + 1] == [path[0]] + path[1..][..r];
      r + 1
  }

  /** The names between the slashes. */
  function Split(path: Name): (r: seq<Name>)
    ensures |r| >= 1
    decreases |path|
  {
    var n := FirstSlash(path);
    if n == |path| then [path] else [path[..n]] + Split(path[n + 1..])
  }

  ghost predicate Searchable(p: Partition, disk: Disk, c: int, name: Name)
    requires Mounted(p)
  {
    exists ids :: Suffices(p, disk, c, ids, name, true)
  }

  ghost function TrailFor(p: Partition, disk: Disk, c: int, name: Name): (ids: seq<nat>)
    requires Mounted(p) && Searchable(p, disk, c, name)
    ensures Suffices(p, disk, c, ids, name, true)
  {
    var ids :| Suffices(p, disk, c, ids, name, true);
    ids
  }

  /** The slots of a directory, as far as a search for `name` goes. */
  ghost function Directory(p: Partition, disk: Disk, c: int, name: Name): seq<Entry>
    requires Mounted(p) && Searchable(p, disk, c, name)
  {
    Slots(p, disk, TrailFor(p, disk, c, name))
  }

  datatype FileRef = FileRef(cluster: int, size: nat)

  /** The search for its name ends in every directory that the lookup of `path` enters. */
  ghost predicate Walkable(p: Partition, disk: Disk, path: Name, c: int)
    requires Mounted(p)
    decreases |path|
  {
    var n := FirstSlash(path);
    n <= FILENAME_MAX ==>
      && Searchable(p, disk, c, path[..n])
      && var slots := Directory(p, disk, c, path[..n]);
         var o := Search(slots, path[..n], true, 0);
         n < |path| && o.Hit? && slots[o.index].IsDirectory() ==>
           Walkable(p, disk, path[n + 1..], AsInt(slots[o.index].cluster))
  }

  /** _FATXFindFile: recursion on what follows the first slash. */
  ghost function Lookup(p: Partition, disk: Disk, path: Name, c: int): Option<FileRef>
    requires Mounted(p) && Walkable(p, disk, path, c)
    decreases |path|
  {
    var n := FirstSlash(path);
    if n > FILENAME_MAX then None
    else
      var slots := Directory(p, disk, c, path[..n]);
      var o := Search(slots, path[..n], true, 0);
      if !o.Hit? then None
      else
        var e := slots[o.index];
        if n == |path| then (if e.IsDirectory() then None else Some(FileRef(AsInt(e.cluster), e.size)))
        else if e.IsDirectory() then Lookup(p, disk, path[n + 1..], AsInt(e.cluster))
        else None
  }

  method FindFile(p: Partition, disk: Disk, path: Name, c: int) returns (r: Option<FileRef>)
    requires Mounted(p) && Walkable(p, disk, path, c)
    ensures r == Lookup(p, disk, path, c)
    decreases |path|
  {
    hide Slots, IsChain, IsTrail, Search, Suffices;
    var n := FirstSlash(path);
    if n > FILENAME_MAX { return None; }
    var o, e := SearchChain(p, disk, c, path[..n], true, TrailFor(p, disk, c, path[..n]));
    if !o.Hit? { return None; }
    if n == |path| {
      r := if e.IsDirectory() then None else Some(FileRef(AsInt(e.cluster), e.size));
    } else if e.IsDirectory() {
      r := FindFile(p, disk, path[n + 1..], AsInt(e.cluster));
    } else {
      r := None;
    }
  }

  // ---- the abstract tree -------------------------------------------------

  /** Entry `i` is the first live match, with nothing in front of it that stops the search. */
  predicate FirstMatch(slots: seq<Entry>, name: Name, i: nat) {
    && i < |slots| && Live(slots[i]) && slots[i].Matches(name)
    && forall j :: 0 <= j < i ==> Passed(slots[j], name, true)
  }

  /** From directory `c`, the names lead through directories to the file. */
  ghost predicate Leads(p: Partition, disk: Disk, names: seq<Name>, c: int, file: FileRef)
    requires Mounted(p)
    decreases |names|
  {
    && |names| >= 1 && |names[0]| <= FILENAME_MAX && Searchable(p, disk, c, names[0])
    && exists i: nat :: FirstMatch(Directory(p, disk, c, names[0]), names[0], i)
         && var e := Directory(p, disk, c, names[0])[i];
            if |names| == 1 then !e.IsDirectory() && file == FileRef(AsInt(e.cluster), e.size)
            else e.IsDirectory() && Leads(p, disk, names[1..], AsInt(e.cluster), file)
  }

  lemma HitIff(slots: seq<Entry>, name: Name, i: nat)
    ensures Search(slots, name, true, 0) == Hit(i) <==> FirstMatch(slots, name, i)
  {
    hide Passed, Entry.Matches;
    if i < |slots| { HitIsFirstMatch(slots, name, true, 0, i); }
  }

  /** A path is found if and only if its names lead to a file, and then it is
      that file, also when directories form a cycle. */
  lemma {:induction false} LookupRefinesTree(p: Partition, disk: Disk, path: Name, c: int, file: FileRef)
    requires Mounted(p) && Walkable(p, disk, path, c)
    ensures Lookup(p, disk, path, c) == Some(file) <==> Leads(p, disk, Split(path), c, file)
    decreases |path|
  {
    hide IsChain, IsTrail, Slots, Search, FirstMatch, Suffices;
    var n := FirstSlash(path);
    var names := Split(path);
    assert names[0] == path[..n] by { assert path[..|path|] == path; }
    if n <= FILENAME_MAX {
      var slots := Directory(p, disk, c, path[..n]);
      var o := Search(slots, path[..n], true, 0);
      forall i: nat ensures o == Hit(i) <==> FirstMatch(slots, path[..n], i) {
        HitIff(slots, path[..n], i);
      }
      if o.Hit? && n < |path| && slots[o.index].IsDirectory() {
        LookupRefinesTree(p, disk, path[n + 1..], AsInt(slots[o.index].cluster), file);
        assert names[1..] == Split(path[n + 1..]);
      }
    }
  }

  /** FATXFindFile: backslashes become slashes, leading slashes are skipped. */
  method Normalize(filename: array<Octet>) returns (from: nat)
    modifies filename
    ensures forall i :: 0 <= i < filename.Length ==>
      filename[i] == if old(filename[i]) == BACKSLASH then SLASH else old(filename[i])
    ensures from <= filename.Length && (forall i :: 0 <= i < from ==> filename[i] == SLASH)
    ensures from < filename.Length ==> filename[from] != SLASH
  {
    for i := 0 to filename.Length
      invariant forall j :: 0 <= j < i ==>
        filename[j] == if old(filename[j]) == BACKSLASH then SLASH else old(filename[j])
      invariant forall j :: i <= j < filename.Length ==> filename[j] == old(filename[j])
    {
      if filename[i] == BACKSLASH { filename[i] := SLASH; }
    }
    from := 0;
    while from < filename.Length && filename[from] == SLASH
      invariant from <= filename.Length && forall i :: 0 <= i < from ==> filename[i] == SLASH
    {
      from := from + 1;
    }
  }
}
