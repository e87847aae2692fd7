/**
 Listing a directory (FATXListDir in fs/fatx/BootFATX.c): collect the live
 names, then sort them in place by repeated passes of neighbour swaps.
 */
module FatxListing {
  import opened Types
  import opened AtaDrive
  import opened Fatx
  import opened FatxLookup

  // ---- collecting --------------------------------------------------------

  /** The name as it is listed: the prefix and the stored bytes. */
  function Listed(e: Entry, prefix: Name): Name {
    prefix + e.field[..if e.length <= |e.field| then e.length else |e.field|]
  }

  /** The live entries in front of the end marker. */
  function LiveEntries(slots: seq<Entry>): seq<Entry> {
    if slots == [] || slots[0].IsEnd() then []
    else (if Live(slots[0]) then [slots[0]] else []) + LiveEntries(slots[1..])
  }

  /** All names there are to list, from slot `from` on. */
  function NamesFrom(slots: seq<Entry>, from: nat, prefix: Name): (r: seq<Name>)
    requires from <= |slots|
    ensures |r| == |LiveEntries(slots[from..])|
    ensures forall i :: 0 <= i < |r| ==> r[i] == Listed(LiveEntries(slots[from..])[i], prefix)
  {
    var es := LiveEntries(slots[from..]);
    seq(|es|, i requires 0 <= i < |es| => Listed(es[i], prefix))
  }

  /** What is to be listed: at most `limit` names. */
  function Listing(slots: seq<Entry>, prefix: Name, limit: nat): (r: seq<Name>)
    ensures |r| <= limit
  {
    var all := NamesFrom(slots, 0, prefix);
    if |all| <= limit then all else all[..limit]
  }

  /** How many of the first `i` slots hold a name of proper length. */
  function Names(slots: seq<Entry>, i: nat): nat
    requires i <= |slots|
  {
    if i == 0 then 0 else Names(slots, i - 1) + if 1 <= slots[i - 1].length <= 42 then 1 else 0
  }

  predicate NoEndBefore(slots: seq<Entry>, i: nat) {
    i <= |slots| && forall j :: 0 <= j < i ==> slots[j].length != 0 && slots[j].length != 0xFF
  }

  lemma {:induction false} NamesRest(slots: seq<Entry>, i: nat)
    requires 0 < i <= |slots|
    ensures Names(slots, i) == Names(slots[1..], i - 1) + if 1 <= slots[0].length <= 42 then 1 else 0
  {
    if i > 1 { NamesRest(slots, i - 1); }
  }

  lemma {:induction false} LiveAt(slots: seq<Entry>, i: nat)
    requires NoEndBefore(slots, i)
    ensures Names(slots, i) <= |LiveEntries(slots)|
    ensures i < |slots| && 1 <= slots[i].length <= 42 ==>
      Names(slots, i) < |LiveEntries(slots)| && LiveEntries(slots)[Names(slots, i)] == slots[i]
    ensures i == |slots| || slots[i].length == 0 || slots[i].length == 0xFF ==> Names(slots, i) == |LiveEntries(slots)|
    decreases i
  {
    if i > 0 {
      assert forall j :: 0 <= j < i - 1 ==> slots[1..][j] == slots[j + 1];
      LiveAt(slots[1..], i - 1);
      NamesRest(slots, i);
    }
  }

  /** The listing, from the first bytes of the slots: each name of proper length
      in front of the end marker stands, behind the prefix, at the place that
      the names before it leave; there are no others. */
  lemma ListingExactly(slots: seq<Entry>, prefix: Name, i: nat)
    requires NoEndBefore(slots, i)
    ensures var all := NamesFrom(slots, 0, prefix);
      && (i < |slots| && 1 <= slots[i].length <= 42 ==>
            var k, e := Names(slots, i), slots[i];
            && k < |all|
            && (e.length <= |e.field| ==>
                  && |all[k]| == |prefix| + e.length && all[k][..|prefix|] == prefix
                  && all[k][|prefix|..] == e.field[..e.length]))
      && (i == |slots| || slots[i].length == 0 || slots[i].length == 0xFF ==> |all| == Names(slots, i))
  {
    hide LiveEntries, Names, NoEndBefore, Listed;
    assert slots[0..] == slots;
    LiveAt(slots, i);
    if i < |slots| && slots[i].length <= |slots[i].field| { ListedParts(slots[i], prefix); }
  }

  lemma ListedParts(e: Entry, prefix: Name)
    requires e.length <= |e.field|
    ensures var r := Listed(e, prefix);
      |r| == |prefix| + e.length && r[..|prefix|] == prefix && r[|prefix|..] == e.field[..e.length]
  {
  }

  lemma NamesStep(slots: seq<Entry>, from: nat, prefix: Name)
    requires from < |slots|
    ensures NamesFrom(slots, from, prefix) ==
      if slots[from].IsEnd() then []
      else (if Live(slots[from]) then [Listed(slots[from], prefix)] else []) + NamesFrom(slots, from + 1, prefix)
  {
    hide Live, Listed;
    assert slots[from..][1..] == slots[from + 1..];
  }

  /** No end marker among the first `at` slots. */
  predicate NoEnd(slots: seq<Entry>, at: nat) {
    at <= |slots| && forall j :: 0 <= j < at ==> !slots[j].IsEnd()
  }

  /** The names collected so far, followed by those still to come, are all of them. */
  predicate Collecting(all: seq<Name>, got: seq<Name>, slots: seq<Entry>, at: nat, prefix: Name) {
    NoEnd(slots, at) && all == got + NamesFrom(slots, at, prefix)
  }

  /** The entries of one cluster; `stop` at the end marker or when `limit` names are there. */
  method CollectCluster(data: seq<Octet>, res: array<Name>, count: nat, limit: nat, prefix: Name, ghost base: nat,
                        ghost slots: seq<Entry>, ghost all: seq<Name>)
    returns (c: nat, stop: bool)
    requires |data| == CLUSTER_SIZE && base + CLUSTER_ENTRIES <= |slots| && count < limit <= res.Length
    requires forall i :: 0 <= i < CLUSTER_ENTRIES ==> slots[base + i] == EntryAt(data, i)
    requires Collecting(all, res[..count], slots, base, prefix)
    modifies res
    ensures c <= limit && res[limit..] == old(res[limit..])
    ensures stop ==> c <= |all| && res[..c] == all[..c] && (c == limit || c == |all|)
    ensures !stop ==> c < limit && Collecting(all, res[..c], slots, base + CLUSTER_ENTRIES, prefix)
  {
    hide EntryAt, Live, Listed, Collecting, Entry.IsEnd, Entry.IsDeleted, Entry.HasBadLength;
    c := count;
    for i := 0 to CLUSTER_ENTRIES
      invariant c < limit && Collecting(all, res[..c], slots, base + i, prefix) && res[limit..] == old(res[limit..])
    {
      var e := EntryAt(data, i);
      assert e == slots[base + i];
      CollectStep(all, res[..c], slots, base + i, prefix);
      if e.IsEnd() { return c, true; }
      LiveIff(e);
      if !e.IsDeleted() && !e.HasBadLength() {
        ghost var got := res[..c];
        res[c] := Listed(e, prefix);
        c := c + 1;
        assert res[..c] == got + [Listed(e, prefix)];
        if c >= limit {
          CollectedPrefix(all, res[..c], slots, base + i + 1, prefix);
          return c, true;
        }
      }
    }
    stop := false;
  }

  /** Slot `at` ends the listing, adds its name, or is skipped. */
  lemma CollectStep(all: seq<Name>, got: seq<Name>, slots: seq<Entry>, at: nat, prefix: Name)
    requires at < |slots| && Collecting(all, got, slots, at, prefix)
    ensures slots[at].IsEnd() ==> all == got
    ensures !slots[at].IsEnd() ==>
      Collecting(all, if Live(slots[at]) then got + [Listed(slots[at], prefix)] else got, slots, at + 1, prefix)
  {
    hide Live, Listed, NamesFrom;
    NamesStep(slots, at, prefix);
  }

  lemma CollectedPrefix(all: seq<Name>, got: seq<Name>, slots: seq<Entry>, at: nat, prefix: Name)
    requires Collecting(all, got, slots, at, prefix)
    ensures |got| <= |all| && got == all[..|got|]
  {
    hide NamesFrom;
  }

  lemma LiveIff(e: Entry)
    requires !e.IsEnd()
    ensures Live(e) <==> !e.IsDeleted() && !e.HasBadLength()
  {
  }

  // ---- sorting -----------------------------------------------------------

  /** `after(x, y)` says that the comparator returns a positive number. */
  type Comparator = (Name, Name) -> bool

  ghost predicate Asymmetric(after: Comparator) {
    forall x, y :: after(x, y) ==> !after(y, x)
  }

  /** A total preorder: what is not after can be chained. */
  ghost predicate Chains(after: Comparator) {
    forall x, y, z :: !after(x, y) && !after(y, z) ==> !after(x, z)
  }

  predicate Sorted(s: seq<Name>, after: Comparator) {
    forall i, j :: 0 <= i < j < |s| ==> !after(s[i], s[j])
  }

  /** How many elements of `s` should stand in front of `x`. */
  function Smaller(s: seq<Name>, x: Name, after: Comparator): nat {
    if s == [] then 0 else (if after(x, s[0]) then 1 else 0) + Smaller(s[1..], x, after)
  }

  function Inversions(s: seq<Name>, after: Comparator): nat {
    if s == [] then 0 else Smaller(s[1..], s[0], after) + Inversions(s[1..], after)
  }

  function Swapped(s: seq<Name>, i: nat): (r: seq<Name>)
    requires i + 1 < |s|
    ensures |r| == |s|
  {
    s[i := s[i + 1]][i + 1 := s[i]]
  }

  lemma {:induction false} SwapKeepsSmaller(s: seq<Name>, i: nat, x: Name, after: Comparator)
    requires i + 1 < |s|
    ensures Smaller(Swapped(s, i), x, after) == Smaller(s, x, after)
    decreases i
  {
    var t := Swapped(s, i);
    if i == 0 {
      assert t[1..][1..] == s[1..][1..];
      assert Smaller(t, x, after) == (if after(x, t[0]) then 1 else 0) + Smaller(t[1..], x, after);
      assert Smaller(s, x, after) == (if after(x, s[0]) then 1 else 0) + Smaller(s[1..], x, after);
    } else {
      SwapKeepsSmaller(s[1..], i - 1, x, after);
      assert t[1..] == Swapped(s[1..], i - 1);
    }
  }

  /** Swapping two neighbours that are out of order removes exactly one inversion. */
  lemma {:induction false} SwapRemovesInversion(s: seq<Name>, i: nat, after: Comparator)
    requires i + 1 < |s| && after(s[i], s[i + 1]) && !after(s[i + 1], s[i])
    ensures Inversions(Swapped(s, i), after) == Inversions(s, after) - 1
    decreases i
  {
    var t := Swapped(s, i);
    if i == 0 {
      var rest := s[2..];
      assert t[1..][1..] == s[1..][1..] == rest;
      assert t[1..] == [s[0]] + rest && s[1..] == [s[1]] + rest;
      assert Inversions(t[1..], after) == Smaller(rest, s[0], after) + Inversions(rest, after);
      assert Inversions(s[1..], after) == Smaller(rest, s[1], after) + Inversions(rest, after);
      assert Smaller(t[1..], s[1], after) == Smaller(rest, s[1], after);
      assert Smaller(s[1..], s[0], after) == 1 + Smaller(rest, s[0], after);
    } else {
      SwapRemovesInversion(s[1..], i - 1, after);
      SwapKeepsSmaller(s[1..], i - 1, s[0], after);
      assert t[1..] == Swapped(s[1..], i - 1);
    }
  }

  lemma SwapPermutes(s: seq<Name>, i: nat)
    requires i + 1 < |s|
    ensures multiset(Swapped(s, i)) == multiset(s)
  {
  }

  /** Neighbours in order make the whole sequence sorted, for a total preorder. */
  lemma {:induction false} NeighboursSuffice(s: seq<Name>, after: Comparator, i: nat, j: nat)
    requires Chains(after) && i < j < |s|
    requires forall k :: 0 <= k < |s| - 1 ==> !after(s[k], s[k + 1])
    ensures !after(s[i], s[j])
    decreases j - i
  {
    if i + 1 < j { NeighboursSuffice(s, after, i + 1, j); }
  }

  method SwapAt(res: array<Name>, i: nat, c: nat)
    requires i + 1 < c <= res.Length
    modifies res
    ensures res[..c] == Swapped(old(res[..c]), i) && res[c..] == old(res[c..])
  {
    res[i], res[i + 1] := res[i + 1], res[i];
  }

  /** One pass over the first `c` names. */
  method Pass(res: array<Name>, c: nat, after: Comparator) returns (swaps: nat)
    requires c <= res.Length && Asymmetric(after)
    modifies res
    ensures multiset(res[..c]) == multiset(old(res[..c])) && res[c..] == old(res[c..])
    ensures swaps == 0 ==> res[..c] == old(res[..c]) && forall k :: 0 <= k < c - 1 ==> !after(res[k], res[k + 1])
    ensures Inversions(res[..c], after) + swaps == Inversions(old(res[..c]), after)
  {
    hide Inversions, Swapped;
    swaps := 0;
    var i := 0;
    while i < c - 1
      invariant 0 <= i && (i == 0 || i <= c - 1)
      invariant multiset(res[..c]) == multiset(old(res[..c])) && res[c..] == old(res[c..])
      invariant swaps == 0 ==> res[..c] == old(res[..c]) && forall k :: 0 <= k < i ==> !after(res[k], res[k + 1])
      invariant Inversions(res[..c], after) + swaps == Inversions(old(res[..c]), after)
    {
      if after(res[i], res[i + 1]) {
        SwapRemovesInversion(res[..c], i, after);
        SwapPermutes(res[..c], i);
        SwapAt(res, i, c);
        swaps := swaps + 1;
      }
      i := i + 1;
    }
  }

  /** The sort of FATXListDir: passes until one makes no swap. It ends because
      every swap removes an inversion. */
  method SortNames(res: array<Name>, c: nat, after: Comparator)
    requires c <= res.Length && Asymmetric(after) && Chains(after)
    modifies res
    ensures multiset(res[..c]) == multiset(old(res[..c])) && res[c..] == old(res[c..])
    ensures Sorted(res[..c], after)
  {
    var sortNotOver := 1;
    while sortNotOver != 0 && c >= 2
      invariant multiset(res[..c]) == multiset(old(res[..c])) && res[c..] == old(res[c..])
      invariant sortNotOver == 0 ==> forall k :: 0 <= k < c - 1 ==> !after(res[k], res[k + 1])
      invariant sortNotOver >= 0
      decreases Inversions(res[..c], after) + (if sortNotOver != 0 then 1 else 0)
    {
      sortNotOver := Pass(res, c, after);
    }
    forall i, j | 0 <= i < j < c ensures !after(res[..c][i], res[..c][j]) {
      NeighboursSuffice(res[..c], after, i, j);
    }
  }

  // ---- the listing -------------------------------------------------------

  /** The trail is all that the listing needs: it holds an end marker or enough
      names, or it is the whole chain. What lies behind does not matter. */
  ghost predicate ListSuffices(p: Partition, disk: Disk, c: int, ids: seq<nat>, prefix: Name, limit: nat)
    requires Mounted(p)
  {
    && IsTrail(p, disk, c, ids) && (forall d :: d in ids ==> InRange(p, disk, d))
    && (|| IsChain(p, disk, c, ids)
        || !NoEnd(Slots(p, disk, ids), CLUSTER_ENTRIES * |ids|)
        || |NamesFrom(Slots(p, disk, ids), 0, prefix)| >= limit)
  }

  /** The collecting loops of FATXListDir. */
  method Collect(p: Partition, disk: Disk, first: int, res: array<Name>, limit: nat, prefix: Name, ghost ids: seq<nat>)
    returns (c: nat)
    requires Mounted(p) && ListSuffices(p, disk, first, ids, prefix, limit) && 0 < limit <= res.Length
    modifies res
    ensures c <= limit && res[..c] == Listing(Slots(p, disk, ids), prefix, limit) && res[limit..] == old(res[limit..])
  {
    hide ClusterData, Next, EntryAt, Slots, NamesFrom, IsChain, IsTrail, InRange, Mounted, Collecting, NoEnd;
    ghost var slots := Slots(p, disk, ids);
    ghost var all := NamesFrom(slots, 0, prefix);
    var clusterId := first;
    ghost var k := 0;
    c := 0;
    assert ids[0..] == ids;
    assert Collecting(all, res[..0], slots, 0, prefix) by { NothingYet(all, res[..0], slots, prefix); }
    while clusterId != -1
      invariant 0 <= k <= |ids| && IsTrail(p, disk, clusterId, ids[k..])
      invariant IsChain(p, disk, first, ids) ==> IsChain(p, disk, clusterId, ids[k..])
      invariant c < limit && Collecting(all, res[..c], slots, CLUSTER_ENTRIES * k, prefix)
      invariant res[limit..] == old(res[limit..])
      decreases |ids| - k
    {
      assert k < |ids| by {
        if k == |ids| {
          NoneLeft(p, disk, clusterId, ids);
          AllCollected(all, res[..c], slots, prefix);
        }
      }
      TrailStep(p, disk, clusterId, ids, k);
      var data := LoadCluster(p, disk, clusterId);
      SlotsOfCluster(p, disk, ids, k);
      var stop;
      c, stop := CollectCluster(data, res, c, limit, prefix, CLUSTER_ENTRIES * k, slots, all);
      if stop { return; }
      clusterId := Next(p, disk, clusterId);
      k := k + 1;
    }
    assert k == |ids| by { if k < |ids| { TrailStep(p, disk, clusterId, ids, k); } }
    AllCollected(all, res[..c], slots, prefix);
  }

  lemma NothingYet(all: seq<Name>, got: seq<Name>, slots: seq<Entry>, prefix: Name)
    requires all == NamesFrom(slots, 0, prefix) && got == []
    ensures Collecting(all, got, slots, 0, prefix)
  {
  }

  lemma AllCollected(all: seq<Name>, got: seq<Name>, slots: seq<Entry>, prefix: Name)
    requires Collecting(all, got, slots, |slots|, prefix)
    ensures all == got && NoEnd(slots, |slots|)
  {
    NamesOfNothing(slots, prefix);
  }

  lemma NamesOfNothing(slots: seq<Entry>, prefix: Name)
    ensures NamesFrom(slots, |slots|, prefix) == []
  {
  }

  /** FATXListDir: the live names in front of the end marker, at most `limit`
      of them, in sorted order. */
  method ListDir(p: Partition, disk: Disk, first: int, res: array<Name>, limit: nat, prefix: Name, after: Comparator,
                 ghost ids: seq<nat>)
    returns (c: nat)
    requires Mounted(p) && ListSuffices(p, disk, first, ids, prefix, limit) && 0 < limit <= res.Length
    requires Asymmetric(after) && Chains(after)
    modifies res
    ensures c <= limit && multiset(res[..c]) == multiset(Listing(Slots(p, disk, ids), prefix, limit))
    ensures Sorted(res[..c], after) && res[limit..] == old(res[limit..])
  {
    hide Slots, IsChain, IsTrail, Listing, Sorted, NoEnd, NamesFrom;
    c := Collect(p, disk, first, res, limit, prefix, ids);
    ghost var collected := res[..];
    SortNames(res, c, after);
    assert res[limit..] == res[c..][limit - c..] && collected[limit..] == collected[c..][limit - c..];
  }
}
