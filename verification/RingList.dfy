/**
 The circular doubly linked list of include/list.h: heap nodes whose links are
 rewritten in place, against the sequence of nodes that they realise.
 */
module RingList {

  class Node {
    var next: Node?
    var prev: Node?

    /** INIT_LIST_HEAD */
    method Init()
      modifies this
      ensures Ring([this])
    {
      next, prev := this, this;
    }
  }

  predicate Distinct(ns: seq<Node>) {
    forall i, j :: 0 <= i < j < |ns| ==> ns[i] != ns[j]
  }

  function After(ns: seq<Node>, i: nat): Node
    requires i < |ns|
  {
    if i + 1 < |ns| then ns[i + 1] else ns[0]
  }

  function Before(ns: seq<Node>, i: nat): Node
    requires i < |ns|
  {
    if i > 0 then ns[i - 1] else ns[|ns| - 1]
  }

  /** The nodes form one ring, in this order, in both directions. The first
      one is taken for the list head, the others for the list's entries. */
  ghost predicate Ring(ns: seq<Node>)
    reads ns
  {
    && |ns| >= 1 && Distinct(ns)
    && (forall i :: 0 <= i < |ns| ==> ns[i].next == After(ns, i))
    && (forall i :: 0 <= i < |ns| ==> ns[i].prev == Before(ns, i))
  }

  predicate Disjoint(ns: seq<Node>, ms: seq<Node>) {
    forall i :: 0 <= i < |ms| ==> ms[i] !in ns
  }

  function Without(ns: seq<Node>, k: nat): (r: seq<Node>)
    requires k < |ns|
    ensures |r| == |ns| - 1
    ensures forall i :: 0 <= i < k ==> r[i] == ns[i]
    ensures forall i :: k <= i < |r| ==> r[i] == ns[i + 1]
  {
    ns[..k] + ns[k + 1..]
  }

  // ---- insertion ---------------------------------------------------------

  /** __list_add */
  method LinkBetween(node: Node, prev: Node, next: Node)
    requires node != prev && node != next
    modifies node, prev, next
    ensures next.prev == node && prev.next == node && node.next == next && node.prev == prev
    ensures prev != next ==> prev.prev == old(prev.prev) && next.next == old(next.next)
  {
    next.prev := node;
    node.next := next;
    node.prev := prev;
    prev.next := node;
  }

  /** list_add: right behind the head. */
  method Add(node: Node, head: Node, ghost ns: seq<Node>)
    requires Ring(ns) && head == ns[0] && node !in ns
    modifies node, ns
    ensures Ring([head, node] + ns[1..])
  {
    LinkBetween(node, head, head.next);
  }

  lemma AppendedRing(ns: seq<Node>, node: Node)
    requires |ns| >= 1 && Distinct(ns) && node !in ns
    requires node.next == ns[0] && node.prev == ns[|ns| - 1] && ns[|ns| - 1].next == node && ns[0].prev == node
    requires forall i :: 0 <= i < |ns| - 1 ==> ns[i].next == ns[i + 1]
    requires forall i :: 1 <= i < |ns| ==> ns[i].prev == ns[i - 1]
    ensures Ring(ns + [node])
  {
    var r := ns + [node];
    forall i | 0 <= i < |r| ensures r[i].next == After(r, i) && r[i].prev == Before(r, i) {
      if i < |ns| { assert r[i] == ns[i]; }
    }
  }

  /** list_add_tail: right in front of the head. */
  method AddTail(node: Node, head: Node, ghost ns: seq<Node>)
    requires Ring(ns) && head == ns[0] && node !in ns
    modifies node, ns
    ensures Ring(ns + [node])
  {
    assert head.prev == ns[|ns| - 1];
    LinkBetween(node, head.prev, head);
    AppendedRing(ns, node);
  }

  // ---- removal -----------------------------------------------------------

  /** The links of a ring once entry `k` has been bridged. */
  lemma BridgedRing(ns: seq<Node>, k: nat)
    requires 1 <= k < |ns| && Distinct(ns)
    requires forall i :: 0 <= i < |ns| && i != k ==>
      ns[i].next == if i == k - 1 then After(ns, k) else After(ns, i)
    requires forall i :: 0 <= i < |ns| && i != k ==>
      ns[i].prev == if ns[i] == After(ns, k) then ns[k - 1] else Before(ns, i)
    ensures Ring(Without(ns, k))
  {
    var r := Without(ns, k);
    forall i | 0 <= i < |r| ensures r[i].next == After(r, i) && r[i].prev == Before(r, i) {
      if i < k {
        assert r[i] == ns[i];
      } else {
        assert r[i] == ns[i + 1];
      }
    }
  }

  /** __list_del on the neighbours of an entry. */
  method Unlink(entry: Node, ghost ns: seq<Node>, ghost k: nat)
    requires Ring(ns) && 1 <= k < |ns| && entry == ns[k]
    modifies ns
    ensures Ring(Without(ns, k)) && entry.next == old(entry.next) && entry.prev == old(entry.prev)
  {
    hide Without;
    var prev, next := entry.prev, entry.next;
    assert prev == ns[k - 1] && next == After(ns, k);
    next.prev := prev;
    prev.next := next;
    BridgedRing(ns, k);
  }

  /** list_del */
  method Del(entry: Node, ghost ns: seq<Node>, ghost k: nat)
    requires Ring(ns) && 1 <= k < |ns| && entry == ns[k]
    modifies ns
    ensures Ring(Without(ns, k)) && entry.next == null && entry.prev == null
  {
    hide Without;
    Unlink(entry, ns, k);
    assert entry !in Without(ns, k);
    entry.next := null;
    entry.prev := null;
  }

  lemma EntryLeaves(ns: seq<Node>, k: nat)
    requires Ring(ns) && k < |ns|
    ensures ns[k] !in Without(ns, k)
  {
  }

  /** list_del_init */
  method DelInit(entry: Node, ghost ns: seq<Node>, ghost k: nat)
    requires Ring(ns) && 1 <= k < |ns| && entry == ns[k]
    modifies ns
    ensures Ring(Without(ns, k)) && Ring([entry])
  {
    hide Without, Ring;
    assert entry !in Without(ns, k) by { EntryLeaves(ns, k); }
    Unlink(entry, ns, k);
    entry.Init();
  }

  // ---- moving ------------------------------------------------------------

  /** Nodes that have nothing to do with a ring and a node that joins it. */
  predicate Apart(others: seq<Node>, ns: seq<Node>, node: Node) {
    forall i :: 0 <= i < |others| ==> others[i] !in ns && others[i] != node
  }

  /** Unlink an entry; `to` is what the target ring is then, and `rest` the ring
      it leaves behind if that is another one. */
  method UnlinkForMove(entry: Node, ghost ns: seq<Node>, ghost k: nat, ghost ms: seq<Node>)
    returns (ghost to: seq<Node>, ghost rest: seq<Node>)
    requires Ring(ns) && 1 <= k < |ns| && entry == ns[k] && Ring(ms) && (ms == ns || Disjoint(ns, ms))
    modifies ns
    ensures to == (if ms == ns then Without(ns, k) else ms) && rest == (if ms == ns then [] else Without(ns, k))
    ensures Ring(to) && |to| >= 1 && to[0] == ms[0] && entry !in to && (forall n :: n in to ==> n in ns || n in ms)
    ensures (rest == [] || Ring(rest)) && Apart(rest, to, entry)
    ensures ms != ns ==> rest != []
  {
    hide Without, Ring, Distinct, Disjoint, Apart;
    EntryLeaves(ns, k);
    RestIn(ns, k);
    TargetRing(ns, k, ms);
    UnlinkBeside(entry, ns, k, if ms == ns then [] else ms);
    to := if ms == ns then Without(ns, k) else ms;
    rest := if ms == ns then [] else Without(ns, k);
  }

  /** __list_del beside another ring. */
  method UnlinkBeside(entry: Node, ghost ns: seq<Node>, ghost k: nat, ghost others: seq<Node>)
    requires Ring(ns) && 1 <= k < |ns| && entry == ns[k] && (others == [] || Ring(others)) && Disjoint(ns, others)
    modifies ns
    ensures Ring(Without(ns, k)) && (others == [] || Ring(others))
  {
    hide Ring, Without;
    Unlink(entry, ns, k);
  }

  lemma TargetRing(ns: seq<Node>, k: nat, ms: seq<Node>)
    requires Ring(ns) && 1 <= k < |ns| && Ring(ms) && (ms == ns || Disjoint(ns, ms))
    ensures |ms| >= 1 && |Without(ns, k)| >= 1 && (ms == ns ==> Without(ns, k)[0] == ms[0])
    ensures Disjoint(ns, if ms == ns then [] else ms)
    ensures ms != ns ==> ns[k] !in ms && Apart(Without(ns, k), ms, ns[k])
    ensures Apart([], if ms == ns then Without(ns, k) else ms, ns[k])
  {
    if ms != ns {
      EntryLeaves(ns, k);
      RestApart(ns, k, ms);
    }
  }

  lemma RestApart(ns: seq<Node>, k: nat, ms: seq<Node>)
    requires k < |ns| && Disjoint(ns, ms) && ns[k] !in Without(ns, k)
    ensures Apart(Without(ns, k), ms, ns[k])
  {
    var rest := Without(ns, k);
    RestIn(ns, k);
    forall i | 0 <= i < |rest| ensures rest[i] !in ms && rest[i] != ns[k] {
      assert rest[i] in rest && rest[i] in ns;
    }
  }

  /** list_add beside another ring. */
  method AddBeside(node: Node, head: Node, ghost ns: seq<Node>, ghost rest: seq<Node>)
    requires Ring(ns) && |ns| >= 1 && head == ns[0] && node !in ns && (rest == [] || Ring(rest)) && Apart(rest, ns, node)
    modifies node, ns
    ensures Ring([head, node] + ns[1..]) && (rest == [] || Ring(rest))
  {
    hide Ring;
    Add(node, head, ns);
  }

  method AddTailBeside(node: Node, head: Node, ghost ns: seq<Node>, ghost rest: seq<Node>)
    requires Ring(ns) && |ns| >= 1 && head == ns[0] && node !in ns && (rest == [] || Ring(rest)) && Apart(rest, ns, node)
    modifies node, ns
    ensures Ring(ns + [node]) && (rest == [] || Ring(rest))
  {
    hide Ring;
    AddTail(node, head, ns);
  }

  /** list_move: to right behind the head, in another ring or in its own. */
  method Move(entry: Node, head: Node, ghost ns: seq<Node>, ghost k: nat, ghost ms: seq<Node>)
    requires Ring(ns) && 1 <= k < |ns| && entry == ns[k] && Ring(ms) && head == ms[0]
    requires ms == ns || Disjoint(ns, ms)
    modifies ns, ms
    ensures ms == ns ==> Ring([head, entry] + Without(ns, k)[1..])
    ensures ms != ns ==> Ring(Without(ns, k)) && Ring([head, entry] + ms[1..])
  {
    hide Ring, Without, Distinct, Disjoint, Apart;
    ghost var to, rest := UnlinkForMove(entry, ns, k, ms);
    AddBeside(entry, head, to, rest);
  }

  /** list_move_tail: to right in front of the head. */
  method MoveTail(entry: Node, head: Node, ghost ns: seq<Node>, ghost k: nat, ghost ms: seq<Node>)
    requires Ring(ns) && 1 <= k < |ns| && entry == ns[k] && Ring(ms) && head == ms[0]
    requires ms == ns || Disjoint(ns, ms)
    modifies ns, ms
    ensures ms == ns ==> Ring(Without(ns, k) + [entry])
    ensures ms != ns ==> Ring(Without(ns, k)) && Ring(ms + [entry])
  {
    hide Ring, Without, Distinct, Disjoint, Apart;
    ghost var to, rest := UnlinkForMove(entry, ns, k, ms);
    AddTailBeside(entry, head, to, rest);
  }

  lemma RestIn(ns: seq<Node>, k: nat)
    requires k < |ns|
    ensures forall n :: n in Without(ns, k) ==> n in ns
  {
  }

  /** Moving loses and invents nothing. */
  lemma MoveConserves(ns: seq<Node>, k: nat)
    requires 1 <= k < |ns|
    ensures multiset([ns[0], ns[k]] + Without(ns, k)[1..]) == multiset(ns)
    ensures multiset(Without(ns, k) + [ns[k]]) == multiset(ns)
  {
    var front, x, back := ns[..k], ns[k], ns[k + 1..];
    assert ns == front + [x] + back;
    assert Without(ns, k) == front + back;
    FirstToLast(front, x, back);
    SecondToLast(Without(ns, k), x);
  }

  lemma SecondToLast(r: seq<Node>, x: Node)
    requires |r| >= 1
    ensures multiset([r[0], x] + r[1..]) == multiset(r + [x])
  {
    assert [r[0], x] + r[1..] == [r[0]] + [x] + r[1..] && r == [r[0]] + r[1..];
    FirstToLast([r[0]], x, r[1..]);
  }

  lemma FirstToLast(a: seq<Node>, x: Node, b: seq<Node>)
    ensures multiset(a + [x] + b) == multiset(a + b + [x])
  {
  }

  // ---- splicing ----------------------------------------------------------

  /** list_empty */
  predicate Empty(head: Node)
    reads head
  {
    head.next == head
  }

  lemma EmptyIff(ns: seq<Node>)
    requires Ring(ns)
    ensures Empty(ns[0]) <==> |ns| == 1
  {
  }

  /** __list_splice: the entries of one ring go right behind the head of another. */
  method SpliceLinks(list: Node, head: Node, ghost ns: seq<Node>, ghost ms: seq<Node>)
    requires Ring(ns) && Ring(ms) && list == ns[0] && head == ms[0] && |ns| > 1 && Disjoint(ns, ms)
    modifies ns, ms
    ensures Ring([head] + ns[1..] + ms[1..])
  {
    JoinRings(list, head, ns, ms);
    SplicedRing(ns, ms);
  }

  /** The four link updates. */
  method JoinRings(list: Node, head: Node, ghost ns: seq<Node>, ghost ms: seq<Node>)
    requires Ring(ns) && Ring(ms) && list == ns[0] && head == ms[0] && |ns| > 1 && Disjoint(ns, ms)
    modifies ns, ms
    ensures SplicedLinks(ns, ms)
  {
    var first, last, at := list.next, list.prev, head.next;
    assert first == ns[1] && last == ns[|ns| - 1] && at == After(ms, 0);
    assert forall i, j :: 0 <= i < |ns| && 0 <= j < |ms| ==> ns[i] != ms[j] by { Strangers(ns, ms); }
    hide Disjoint;
    first.prev := head;
    head.next := first;
    last.next := at;
    at.prev := last;
  }

  /** The spliced sequence, index by index. */
  function Spliced(ns: seq<Node>, ms: seq<Node>): (r: seq<Node>)
    requires |ns| > 1 && |ms| >= 1
    ensures |r| == |ns| + |ms| - 1 && r == [ms[0]] + ns[1..] + ms[1..]
    ensures r[0] == ms[0]
    ensures forall i :: 1 <= i < |ns| ==> r[i] == ns[i]
    ensures forall i :: |ns| <= i < |r| ==> r[i] == ms[i - |ns| + 1]
  {
    [ms[0]] + ns[1..] + ms[1..]
  }

  lemma Strangers(ns: seq<Node>, ms: seq<Node>)
    requires Disjoint(ns, ms)
    ensures forall i, j :: 0 <= i < |ns| && 0 <= j < |ms| ==> ns[i] != ms[j]
  {
    forall i, j | 0 <= i < |ns| && 0 <= j < |ms| ensures ns[i] != ms[j] {
      assert ns[i] in ns;
    }
  }

  /** The links after a splice. */
  ghost predicate SplicedLinks(ns: seq<Node>, ms: seq<Node>)
    requires |ns| > 1 && |ms| >= 1
    reads ns, ms
  {
    && (forall i :: 1 <= i < |ns| - 1 ==> ns[i].next == ns[i + 1]) && ns[|ns| - 1].next == After(ms, 0)
    && (forall i :: 2 <= i < |ns| ==> ns[i].prev == ns[i - 1]) && ns[1].prev == ms[0]
    && ms[0].next == ns[1] && (forall i :: 1 <= i < |ms| ==> ms[i].next == After(ms, i))
    && After(ms, 0).prev == ns[|ns| - 1] && (forall i :: 2 <= i < |ms| ==> ms[i].prev == ms[i - 1])
    && (|ms| > 1 ==> ms[0].prev == ms[|ms| - 1])
  }

  lemma SplicedNext(ns: seq<Node>, ms: seq<Node>, r: seq<Node>, i: nat)
    requires |ns| > 1 && |ms| >= 1 && SplicedLinks(ns, ms) && r == Spliced(ns, ms) && i < |r|
    ensures r[i].next == After(r, i) && r[i].prev == Before(r, i)
  {
    hide Spliced;
    var n := |ns|;
    if i == 0 {
      assert r[0] == ms[0] && r[1] == ns[1];
      if |ms| == 1 { assert r[|r| - 1] == ns[n - 1]; } else { assert r[|r| - 1] == ms[|ms| - 1]; }
    } else if i < n {
      assert r[i] == ns[i];
      if i + 1 < n { assert r[i + 1] == ns[i + 1]; } else if |ms| > 1 { assert r[i + 1] == ms[1]; }
      if i > 1 { assert r[i - 1] == ns[i - 1]; }
    } else {
      var j := i - n + 1;
      assert r[i] == ms[j];
      if i + 1 < |r| { assert r[i + 1] == ms[j + 1]; }
      if j > 1 { assert r[i - 1] == ms[j - 1]; } else { assert r[i - 1] == ns[n - 1]; }
    }
  }

  lemma SplicedDistinct(ns: seq<Node>, ms: seq<Node>, r: seq<Node>)
    requires |ns| > 1 && |ms| >= 1 && Distinct(ns) && Distinct(ms) && Disjoint(ns, ms) && r == Spliced(ns, ms)
    ensures Distinct(r)
  {
    hide Spliced;
    var n := |ns|;
    forall i, j | 0 <= i < j < |r| ensures r[i] != r[j] {
      if j < n {
        if i == 0 { assert ns[j] in ns; } else { assert r[i] == ns[i] && r[j] == ns[j]; }
      } else if 0 < i < n {
        assert ns[i] in ns && r[j] == ms[j - n + 1];
      } else {
        assert r[j] == ms[j - n + 1] && (i > 0 ==> r[i] == ms[i - n + 1]);
      }
    }
  }

  lemma SplicedRing(ns: seq<Node>, ms: seq<Node>)
    requires |ns| > 1 && |ms| >= 1 && Distinct(ns) && Distinct(ms) && Disjoint(ns, ms) && SplicedLinks(ns, ms)
    ensures Ring([ms[0]] + ns[1..] + ms[1..])
  {
    hide Distinct, SplicedLinks, After, Before;
    var r := Spliced(ns, ms);
    SplicedDistinct(ns, ms, r);
    forall i | 0 <= i < |r| ensures r[i].next == After(r, i) && r[i].prev == Before(r, i) {
      SplicedNext(ns, ms, r, i);
    }
  }

  /** list_splice */
  method Splice(list: Node, head: Node, ghost ns: seq<Node>, ghost ms: seq<Node>)
    requires Ring(ns) && Ring(ms) && list == ns[0] && head == ms[0] && Disjoint(ns, ms)
    modifies ns, ms
    ensures Ring([head] + ns[1..] + ms[1..])
  {
    EmptyIff(ns);
    if !Empty(list) {
      SpliceLinks(list, head, ns, ms);
    } else {
      assert [head] + ns[1..] + ms[1..] == ms;
    }
  }

  /** list_splice_init */
  method SpliceInit(list: Node, head: Node, ghost ns: seq<Node>, ghost ms: seq<Node>)
    requires Ring(ns) && Ring(ms) && list == ns[0] && head == ms[0] && Disjoint(ns, ms)
    modifies ns, ms
    ensures Ring([head] + ns[1..] + ms[1..]) && Ring([list])
  {
    hide Ring, Distinct, Disjoint;
    EmptyIff(ns);
    ListLeaves(ns, ms);
    if !Empty(list) {
      SpliceLinks(list, head, ns, ms);
      list.Init();
    } else {
      assert [head] + ns[1..] + ms[1..] == ms && [list] == ns;
    }
  }

  lemma ListLeaves(ns: seq<Node>, ms: seq<Node>)
    requires Ring(ns) && Ring(ms) && Disjoint(ns, ms)
    ensures |ns| >= 1 && |ms| >= 1 && ns[0] !in [ms[0]] + ns[1..] + ms[1..]
  {
    Strangers(ns, ms);
  }

  // ---- iterating while removing ------------------------------------------

  /** The nodes that stay. */
  function Kept(ns: seq<Node>, drop: set<Node>): (r: seq<Node>)
    ensures |r| <= |ns| && forall n :: n in r ==> n in ns
  {
    if ns == [] then []
    else
      var last := ns[|ns| - 1];
      Kept(ns[..|ns| - 1], drop) + (if last in drop then [] else [last])
  }

  /** What stays of two parts stays in their order. */
  lemma {:induction false} KeptJoins(a: seq<Node>, b: seq<Node>, drop: set<Node>)
    ensures Kept(a + b, drop) == Kept(a, drop) + Kept(b, drop)
    decreases |b|
  {
    if b == [] {
      assert a + b == a;
    } else {
      var rest, last := b[..|b| - 1], b[|b| - 1];
      assert (a + b)[..|a + b| - 1] == a + rest;
      KeptJoins(a, rest, drop);
    }
  }

  /** Exactly the nodes that are not dropped stay. */
  lemma {:induction false} KeptExactly(ns: seq<Node>, drop: set<Node>, n: Node)
    ensures n in Kept(ns, drop) <==> n in ns && n !in drop
    decreases |ns|
  {
    if ns != [] {
      var rest, last := ns[..|ns| - 1], ns[|ns| - 1];
      KeptExactly(rest, drop, n);
      assert ns == rest + [last];
    }
  }

  /** The ring when the entries in front of index `j` have been handled. */
  function Handled(ns: seq<Node>, j: nat, drop: set<Node>): (r: seq<Node>)
    requires 1 <= j <= |ns|
    ensures |r| == 1 + |Kept(ns[1..j], drop)| + |ns| - j
  {
    [ns[0]] + Kept(ns[1..j], drop) + ns[j..]
  }

  lemma HandledIn(ns: seq<Node>, j: nat, drop: set<Node>)
    requires 1 <= j <= |ns|
    ensures var cur := Handled(ns, j, drop); forall i :: 0 <= i < |cur| ==> cur[i] in ns
  {
    var cur, kept := Handled(ns, j, drop), Kept(ns[1..j], drop);
    hide Kept;
    forall i | 0 <= i < |cur| ensures cur[i] in ns {
      if 1 <= i < 1 + |kept| { assert cur[i] == kept[i - 1] && kept[i - 1] in kept; }
    }
  }

  lemma KeptSnoc(ns: seq<Node>, j: nat, drop: set<Node>)
    requires 1 <= j < |ns|
    ensures Kept(ns[1..j + 1], drop) == Kept(ns[1..j], drop) + (if ns[j] in drop then [] else [ns[j]])
  {
    assert ns[1..j + 1][..j - 1] == ns[1..j];
  }

  lemma HandledStep(ns: seq<Node>, j: nat, drop: set<Node>)
    requires 1 <= j < |ns|
    ensures var cur, k := Handled(ns, j, drop), 1 + |Kept(ns[1..j], drop)|;
      && k < |cur| && cur[k] == ns[j] && After(cur, k) == After(ns, j)
      && Handled(ns, j + 1, drop) == (if ns[j] in drop then Without(cur, k) else cur)
  {
    hide Kept, Without, After;
    var a, x, b := [ns[0]] + Kept(ns[1..j], drop), ns[j], ns[j + 1..];
    assert Handled(ns, j, drop) == a + ([x] + b) by { FirstOfRest(ns, j); }
    TakeOut(a, x, b);
    assert After(ns, j) == (if b == [] then a[0] else b[0]) by { NextOf(ns, j); }
    KeptSnoc(ns, j, drop);
    if x in drop {
      assert Kept(ns[1..j + 1], drop) == Kept(ns[1..j], drop);
    } else {
      Regroup(ns[0], Kept(ns[1..j], drop), x);
    }
  }

  lemma NextOf(ns: seq<Node>, j: nat)
    requires j < |ns|
    ensures After(ns, j) == if ns[j + 1..] == [] then ns[0] else ns[j + 1..][0]
  {
  }

  lemma Regroup(h: Node, s: seq<Node>, x: Node)
    ensures [h] + (s + [x]) == [h] + s + [x]
  {
  }

  lemma FirstOfRest(ns: seq<Node>, j: nat)
    requires j < |ns|
    ensures ns[j..] == [ns[j]] + ns[j + 1..]
  {
  }

  /** Node `n` between two parts of a sequence. */
  lemma TakeOut(a: seq<Node>, n: Node, b: seq<Node>)
    requires |a| >= 1
    ensures var s := a + ([n] + b);
      && |a| < |s| && s[|a|] == n && After(s, |a|) == (if b == [] then a[0] else b[0])
      && Without(s, |a|) == a + b && s == a + [n] + b
  {
    var s := a + ([n] + b);
    assert s[..|a|] == a && s[|a| + 1..] == b;
  }

  lemma RingLink(ns: seq<Node>, k: nat)
    requires Ring(ns) && k < |ns|
    ensures ns[k].next == After(ns, k) && (k > 0 ==> ns[k] != ns[0])
  {
  }

  function Visited(ns: seq<Node>, j: nat): seq<Node>
    requires 1 <= j <= |ns|
  {
    ns[1..j]
  }

  lemma SliceSnoc(ns: seq<Node>, j: nat)
    requires 1 <= j < |ns|
    ensures Visited(ns, j + 1) == Visited(ns, j) + [ns[j]]
  {
  }

  lemma VisitedEnds(ns: seq<Node>)
    requires |ns| >= 1
    ensures Visited(ns, 1) == [] && Visited(ns, |ns|) == ns[1..]
  {
  }

  lemma HeadOnce(ns: seq<Node>, j: nat)
    requires Distinct(ns) && 1 <= j < |ns|
    ensures ns[j] != ns[0]
  {
  }

  lemma HandledEnds(ns: seq<Node>, drop: set<Node>)
    requires |ns| >= 1
    ensures Handled(ns, 1, drop) == ns && Handled(ns, |ns|, drop) == [ns[0]] + Kept(ns[1..], drop)
  {
    assert ns[1..1] == [] && ns[1..|ns|] == ns[1..];
  }

  lemma NextHandled(ns: seq<Node>, j: nat, drop: set<Node>)
    requires 1 <= j < |ns| && Ring(Handled(ns, j, drop))
    ensures ns[j].next == After(ns, j)
  {
    hide Handled, Ring;
    HandledStep(ns, j, drop);
    RingLink(Handled(ns, j, drop), 1 + |Kept(ns[1..j], drop)|);
  }

  /** The loop body: drop the entry or leave it. */
  method Handle(pos: Node, drop: set<Node>, ghost ns: seq<Node>, ghost j: nat)
    requires 1 <= j < |ns| && Ring(Handled(ns, j, drop)) && pos == ns[j]
    modifies ns
    ensures Ring(Handled(ns, j + 1, drop))
  {
    hide Handled, Ring, Without, Kept;
    HandledStep(ns, j, drop);
    HandledIn(ns, j, drop);
    if pos in drop { Del(pos, Handled(ns, j, drop), 1 + |Kept(ns[1..j], drop)|); }
  }

  /** list_for_each_safe with a body that may list_del the current entry: every
      original entry is visited once, in order, and the others stay linked. */
  method ForEachSafe(head: Node, drop: set<Node>, ghost ns: seq<Node>) returns (visited: seq<Node>)
    requires Ring(ns) && head == ns[0]
    modifies ns
    ensures visited == ns[1..] && Ring([head] + Kept(ns[1..], drop))
  {
    HandledEnds(ns, drop);
    VisitedEnds(ns);
    RingLink(ns, 0);
    assert |ns| >= 1 && Distinct(ns);
    hide Ring, Handled, Kept, Without, Distinct, Visited;
    var pos: Node := head.next;
    var n: Node? := pos.next;
    visited := [];
    ghost var j := 1;
    while pos != head
      invariant 1 <= j <= |ns| && visited == Visited(ns, j) && Ring(Handled(ns, j, drop))
      invariant pos == (if j < |ns| then ns[j] else head) && n == pos.next
      decreases |ns| - j
    {
      NextHandled(ns, j, drop);
      visited := visited + [pos];
      SliceSnoc(ns, j);
      Handle(pos, drop, ns, j);
      pos := n;
      n := pos.next;
      j := j + 1;
    }
    assert j == |ns| by { if j < |ns| { HeadOnce(ns, j); } }
  }
}
