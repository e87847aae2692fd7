/**
 Cluster chains from the bytes of the chain map (fs/fatx/BootFATX.c): what an
 entry means, and which maps link which clusters.
 */
module FatxLinks {
  import opened Arith
  import opened Types
  import opened AtaAddress
  import opened AtaDrive
  import opened Fatx
  import opened FatxFormat

  // ---- single entries ----------------------------------------------------

  /** Entry `c` of the map holds `v`, low byte first. */
  predicate HoldsEntry(p: Partition, c: nat, v: nat)
    requires Mounted(p) && c < p.clusterCount
  {
    EntryInTable(p, c);
    if p.entrySize == 2 then v < 0x1_0000 && p.table[2 * c..2 * c + 2] == [v % 0x100, v / 0x100]
    else v < 0x1_0000_0000 && p.table[4 * c..4 * c + 4] == Bytes32(v)
  }

  lemma EntryInTable(p: Partition, c: nat)
    requires Mounted(p) && c < p.clusterCount
    ensures (c + 1) * p.entrySize <= |p.table|
    ensures if p.entrySize == 2 then 2 * c + 2 <= |p.table| else 4 * c + 4 <= |p.table|
  {
  }

  predicate IsMarker(p: Partition, v: nat) {
    if p.entrySize == 2 then v == 0xFFFF || v == 0xFFF8 else v == 0xFFFF_FFFF || v == 0xFFFF_FFF8
  }

  lemma EntryValue(p: Partition, c: nat, v: nat)
    requires Mounted(p) && c < p.clusterCount
    ensures (c + 1) * p.entrySize <= |p.table| && (HoldsEntry(p, c, v) <==> TableEntry(p, c) == v)
  {
    EntryInTable(p, c);
    if p.entrySize == 2 { EntryOfTwo(p.table, 2 * c, v); } else { EntryOfFour(p.table, 4 * c, v); }
  }

  lemma EntryOfTwo(t: seq<Octet>, at: nat, v: nat)
    requires at + 2 <= |t|
    ensures v < 0x1_0000 && t[at..at + 2] == [v % 0x100, v / 0x100] <==> Word16(t, at) == v
  {
    assert t[at..at + 2] == [t[at], t[at + 1]];
  }

  lemma EntryOfFour(t: seq<Octet>, at: nat, v: nat)
    requires at + 4 <= |t|
    ensures v < 0x1_0000_0000 && t[at..at + 4] == Bytes32(v) <==> Word32(t, at) == v
  {
    if v < 0x1_0000_0000 && t[at..at + 4] == Bytes32(v) { WordOfBytes(t, at, v); }
    if Word32(t, at) == v {
      assert t[at..at + 4] == [t[at], t[at + 1], t[at + 2], t[at + 3]];
      BytesOfWord(t[at], t[at + 1], t[at + 2], t[at + 3]);
    }
  }

  lemma BytesOfWord(b0: Octet, b1: Octet, b2: Octet, b3: Octet)
    ensures var v: int := b0 + 0x100 * b1 + 0x1_0000 * b2 + 0x100_0000 * b3;
      v < 0x1_0000_0000 && Bytes32(v) == [b0, b1, b2, b3]
  {
    var v := b0 + 0x100 * b1 + 0x1_0000 * b2 + 0x100_0000 * b3;
    var a := b1 + 0x100 * b2 + 0x1_0000 * b3;
    var b := b2 + 0x100 * b3;
    DivModUnique(v, 0x100, a, b0);
    DivModUnique(a, 0x100, b, b1);
    DivModUnique(b, 0x100, b3, b2);
    DivModUnique(v, 0x1_0000, b, b0 + 0x100 * b1);
    DivModUnique(v, 0x100_0000, b3, b0 + 0x100 * b1 + 0x1_0000 * b2);
  }

  /** The next cluster is the entry itself, read as a C int, unless that is one
      of the two end markers of its width. */
  lemma NextExactly(p: Partition, disk: Disk, c: nat, v: nat)
    requires Mounted(p) && InRange(p, disk, c) && HoldsEntry(p, c, v)
    ensures Next(p, disk, c) ==
      if p.entrySize == 2 then (if v == 0xFFFF || v == 0xFFF8 then -1 else v)
      else if v == 0xFFFF_FFFF || v == 0xFFFF_FFF8 then -1
      else if v < 0x8000_0000 then v else v - 0x1_0000_0000
  {
    hide HoldsEntry, TableEntry;
    EntryValue(p, c, v);
  }

  // ---- chains ------------------------------------------------------------

  /** Entry `c` sends on to cluster `d`. */
  predicate LinksTo(p: Partition, c: nat, d: nat)
    requires Mounted(p) && c < p.clusterCount
  {
    HoldsEntry(p, c, d) && !IsMarker(p, d) && d < 0x8000_0000
  }

  predicate EndsAt(p: Partition, c: nat)
    requires Mounted(p) && c < p.clusterCount
  {
    || (p.entrySize == 2 && (HoldsEntry(p, c, 0xFFFF) || HoldsEntry(p, c, 0xFFF8)))
    || (p.entrySize == 4 && (HoldsEntry(p, c, 0xFFFF_FFFF) || HoldsEntry(p, c, 0xFFFF_FFF8)))
  }

  /** The map links these clusters in this order: each entry holds the number of
      the next cluster, the last one an end marker. */
  predicate Links(p: Partition, disk: Disk, ids: seq<nat>)
    requires Mounted(p)
  {
    && (forall k :: 0 <= k < |ids| ==> InRange(p, disk, ids[k]))
    && (forall k :: 0 <= k < |ids| - 1 ==> LinksTo(p, ids[k], ids[k + 1]))
    && (ids != [] ==> EndsAt(p, ids[|ids| - 1]))
  }

  lemma LinkExactly(p: Partition, disk: Disk, c: nat, d: nat)
    requires Mounted(p) && InRange(p, disk, c) && d >= 1
    ensures Next(p, disk, c) == d <==> LinksTo(p, c, d)
  {
    hide HoldsEntry;
    EntryValue(p, c, d);
  }

  lemma EndExactly(p: Partition, disk: Disk, c: nat)
    requires Mounted(p) && InRange(p, disk, c)
    ensures Next(p, disk, c) == -1 <==> EndsAt(p, c)
  {
    hide HoldsEntry, TableEntry;
    EntryValue(p, c, 0xFFFF);
    EntryValue(p, c, 0xFFF8);
    EntryValue(p, c, 0xFFFF_FFFF);
    EntryValue(p, c, 0xFFFF_FFF8);
  }

  /** These clusters are the chain from the first of them if and only if the
      bytes of the map link them in this order. */
  lemma {:induction false} ChainExactly(p: Partition, disk: Disk, ids: seq<nat>)
    requires Mounted(p) && ids != []
    ensures IsChain(p, disk, ids[0], ids) <==> Links(p, disk, ids)
    decreases |ids|
  {
    hide LinksTo, EndsAt, Next, InRange;
    var rest := ids[1..];
    if InRange(p, disk, ids[0]) {
      var next := Next(p, disk, ids[0]);
      if rest == [] {
        EndExactly(p, disk, ids[0]);
      } else {
        ChainExactly(p, disk, rest);
        if InRange(p, disk, rest[0]) { LinkFirst(p, disk, ids); }
        LinksSplit(p, disk, ids);
        assert IsChain(p, disk, next, rest) <==> next == rest[0] && IsChain(p, disk, rest[0], rest);
      }
    }
  }

  lemma LinkFirst(p: Partition, disk: Disk, ids: seq<nat>)
    requires Mounted(p) && |ids| > 1 && InRange(p, disk, ids[0]) && InRange(p, disk, ids[1])
    ensures Next(p, disk, ids[0]) == ids[1] <==> LinksTo(p, ids[0], ids[1])
  {
    LinkExactly(p, disk, ids[0], ids[1]);
  }

  lemma LinksSplit(p: Partition, disk: Disk, ids: seq<nat>)
    requires Mounted(p) && |ids| > 1
    ensures Links(p, disk, ids) <==>
      InRange(p, disk, ids[0]) && Links(p, disk, ids[1..]) && LinksTo(p, ids[0], ids[1])
  {
    hide LinksTo, EndsAt;
    var rest := ids[1..];
    if InRange(p, disk, ids[0]) && Links(p, disk, rest) && LinksTo(p, ids[0], ids[1]) {
      assert forall k :: 1 <= k < |ids| ==> ids[k] == rest[k - 1];
    }
    if Links(p, disk, ids) {
      assert forall k :: 0 <= k < |rest| ==> rest[k] == ids[k + 1];
    }
  }

  // ---- writing a chain ---------------------------------------------------

  /** The map with one entry replaced. */
  function WithEntry(p: Partition, c: nat, v: UInt): (r: Partition)
    requires Mounted(p) && c < p.clusterCount && (p.entrySize == 2 ==> v < 0x1_0000)
    ensures Mounted(r) && r == p.(table := r.table) && HoldsEntry(r, c, v)
    ensures forall d, x :: 0 <= d < p.clusterCount && d != c && 0 <= x ==> (HoldsEntry(r, d, x) <==> HoldsEntry(p, d, x))
  {
    EntryInTable(p, c);
    var bytes := if p.entrySize == 2 then [v % 0x100, v / 0x100] else Bytes32(v);
    var table := p.table[..p.entrySize * c] + bytes + p.table[p.entrySize * c + p.entrySize..];
    WithEntryHolds(p, p.(table := table), c, v, bytes);
    p.(table := table)
  }

  lemma WithEntryHolds(p: Partition, r: Partition, c: nat, v: UInt, bytes: seq<Octet>)
    requires Mounted(p) && c < p.clusterCount && (p.entrySize == 2 ==> v < 0x1_0000)
    requires bytes == if p.entrySize == 2 then [v % 0x100, v / 0x100] else Bytes32(v)
    requires (c + 1) * p.entrySize <= |p.table|
    requires r == p.(table := p.table[..p.entrySize * c] + bytes + p.table[p.entrySize * c + p.entrySize..])
    ensures Mounted(r) && HoldsEntry(r, c, v)
    ensures forall d, x :: 0 <= d < p.clusterCount && d != c && 0 <= x ==> (HoldsEntry(r, d, x) <==> HoldsEntry(p, d, x))
  {
    hide Bytes32;
    var e := p.entrySize;
    Replaced(p.table, e * c, bytes);
    forall d, x | 0 <= d < p.clusterCount && d != c && 0 <= x ensures HoldsEntry(r, d, x) <==> HoldsEntry(p, d, x) {
      OtherEntry(p, r, c, d, bytes);
    }
  }

  lemma OtherEntry(p: Partition, r: Partition, c: nat, d: nat, bytes: seq<Octet>)
    requires Mounted(p) && c < p.clusterCount && d < p.clusterCount && c != d && |bytes| == p.entrySize
    requires (c + 1) * p.entrySize <= |p.table|
    requires r == p.(table := p.table[..p.entrySize * c] + bytes + p.table[p.entrySize * c + p.entrySize..])
    ensures forall x :: 0 <= x ==> (HoldsEntry(r, d, x) <==> HoldsEntry(p, d, x))
  {
    hide Bytes32;
    EntryInTable(p, d);
    ReplacedElsewhere(p.table, p.entrySize * c, bytes, p.entrySize * d);
  }

  lemma Replaced(t: seq<Octet>, at: nat, bytes: seq<Octet>)
    requires at + |bytes| <= |t|
    ensures (t[..at] + bytes + t[at + |bytes|..])[at..at + |bytes|] == bytes
  {
  }

  lemma ReplacedElsewhere(t: seq<Octet>, at: nat, bytes: seq<Octet>, i: nat)
    requires at + |bytes| <= |t| && i + |bytes| <= |t| && (i + |bytes| <= at || at + |bytes| <= i)
    ensures (t[..at] + bytes + t[at + |bytes|..])[i..i + |bytes|] == t[i..i + |bytes|]
  {
    var r := t[..at] + bytes + t[at + |bytes|..];
    assert forall j :: i <= j < i + |bytes| ==> r[j] == t[j];
  }

  predicate Distinct(ids: seq<nat>) {
    forall i, j :: 0 <= i < j < |ids| ==> ids[i] != ids[j]
  }

  /** Clusters of the partition whose numbers an entry can hold. */
  predicate Linkable(p: Partition, disk: Disk, ids: seq<nat>) {
    && Distinct(ids)
    && forall k :: 0 <= k < |ids| ==>
         InRange(p, disk, ids[k]) && !IsMarker(p, ids[k]) && ids[k] < if p.entrySize == 2 then 0x1_0000 else 0x8000_0000
  }

  /** The map with the clusters linked in this order, one entry after the other. */
  function LinkUp(p: Partition, disk: Disk, ids: seq<nat>, end: UInt): (r: Partition)
    requires Mounted(p) && Linkable(p, disk, ids) && IsMarker(p, end)
    ensures Mounted(r) && r == p.(table := r.table)
    decreases |ids|
  {
    if ids == [] then p
    else
      LinkableRest(p, disk, ids);
      var r := LinkUp(p, disk, ids[1..], end);
      WithEntry(r, ids[0], if |ids| == 1 then end else ids[1])
  }

  lemma LinkableRest(p: Partition, disk: Disk, ids: seq<nat>)
    requires Linkable(p, disk, ids) && ids != []
    ensures Linkable(p, disk, ids[1..])
  {
    hide InRange, IsMarker;
    assert forall k :: 0 <= k < |ids[1..]| ==> ids[1..][k] == ids[k + 1];
  }

  lemma {:induction false} LinkUpLinks(p: Partition, disk: Disk, ids: seq<nat>, end: UInt)
    requires Mounted(p) && Linkable(p, disk, ids) && IsMarker(p, end)
    ensures Links(LinkUp(p, disk, ids, end), disk, ids)
    decreases |ids|
  {
    hide HoldsEntry;
    if ids != [] {
      var rest := ids[1..];
      LinkableRest(p, disk, ids);
      LinkUpLinks(p, disk, rest, end);
      var q, r := LinkUp(p, disk, rest, end), LinkUp(p, disk, ids, end);
      if rest != [] {
        KeepsLinks(q, r, disk, ids[0], rest);
        LinksSplit(r, disk, ids);
      }
    }
  }

  /** Another entry does not matter to the clusters linked so far. */
  lemma KeepsLinks(q: Partition, r: Partition, disk: Disk, c: nat, ids: seq<nat>)
    requires Mounted(q) && Mounted(r) && r == q.(table := r.table) && Links(q, disk, ids) && c !in ids
    requires forall d, x :: 0 <= d < q.clusterCount && d != c && 0 <= x ==> (HoldsEntry(r, d, x) <==> HoldsEntry(q, d, x))
    ensures Links(r, disk, ids)
  {
    hide HoldsEntry;
  }

  /** Any distinct clusters of a partition, linked in any order, are the chain
      from the first of them. */
  lemma LinkUpIsChain(p: Partition, disk: Disk, ids: seq<nat>, end: UInt)
    requires Mounted(p) && Linkable(p, disk, ids) && IsMarker(p, end) && ids != []
    ensures IsChain(LinkUp(p, disk, ids, end), disk, ids[0], ids)
  {
    hide LinkUp, Links, Linkable, IsChain;
    LinkUpLinks(p, disk, ids, end);
    ChainExactly(LinkUp(p, disk, ids, end), disk, ids);
  }
}
