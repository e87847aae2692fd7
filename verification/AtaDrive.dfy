/**
 The block transfers of the IDE driver (drivers/ide/BootIde.c) against a disk
 that may fail any command and any data block.
 */
module AtaDrive {
  import opened Arith
  import opened Types
  import opened AtaAddress

  /** A sector, as a value. Buffers hold whole sectors. */
  type Sector = s: seq<Octet> | |s| == 512 witness seq(512, i => 0)

  type Disk = seq<Sector>

  /** The disk with sectors lba, lba + 1, ... replaced by `data`. */
  function Stored(disk: Disk, lba: nat, data: seq<Sector>): (r: Disk)
    requires lba + |data| <= |disk|
    ensures |r| == |disk|
    ensures forall i :: 0 <= i < |disk| ==> r[i] == if lba <= i < lba + |data| then data[i - lba] else disk[i]
  {
    disk[..lba] + data + disk[lba + |data|..]
  }

  predicate SameOutside(disk: Disk, was: Disk, lo: nat, hi: nat) {
    |disk| == |was| && forall i :: 0 <= i < |disk| && !(lo <= i < hi) ==> disk[i] == was[i]
  }

  function Min(a: nat, b: nat): nat {
    if a <= b then a else b
  }

  lemma StoredAppends(disk: Disk, lba: nat, a: seq<Sector>, b: seq<Sector>)
    requires lba + |a| + |b| <= |disk|
    ensures Stored(Stored(disk, lba, a), lba + |a|, b) == Stored(disk, lba, a + b)
  {
  }

  /** Storing the next piece of a buffer extends what is stored, up to `n` sectors. */
  lemma StoredExtends(disk: Disk, lba: nat, buffer: seq<Sector>, i: nat, j: nat, n: nat)
    requires i <= j <= |buffer| && lba + n <= |disk|
    ensures var done := Min(i, n);
      Stored(Stored(disk, lba, buffer[..done]), lba + done, buffer[i..j][..Min(j - i, n - done)])
        == Stored(disk, lba, buffer[..Min(j, n)])
  {
    var done := Min(i, n);
    var next := buffer[i..j][..Min(j - i, n - done)];
    StoredAppends(disk, lba, buffer[..done], next);
    assert buffer[..done] + next == buffer[..Min(j, n)];
  }

  /** How many sectors BootIdeWriteMultiple sends: full blocks, then a partial one. */
  function Sent(len: Short, block: nat): nat
    requires block > 0
  {
    var remaining := if len == 0 || len > 256 then 256 else len;
    remaining - remaining % block + len % block
  }

  /** A write of up to 256 sectors sends as many as it announces if and only if
      the count byte is not 0, or the command is a 28-bit one and, for the
      documented 0 for 256, the block size divides 256. */
  lemma SendsWhatItAnnounces(start: UInt, len: Short, block: nat)
    requires 0 < block && len <= 256
    ensures Sent(len, block) == Expected(start, len) <==>
      len % 256 != 0 || (!Takes48(start, len) && (len == 256 || 256 % block == 0))
    ensures len != 0 ==> Sent(len, block) == len
    ensures Sent(len, block) <= Expected(start, len)
  {
    assert 0 % block == 0;
    ModAtMost(256, block);
  }

  /** The first full run beyond 28 bits: 256 sectors are sent, 65536 expected. */
  lemma LongRunFallsShort(block: nat)
    requires block > 0
    ensures Sent(256, block) == 256 && Expected(LBA28_LIMIT, 256) == 0x1_0000
  {
    SendsWhatItAnnounces(LBA28_LIMIT, 256, block);
  }

  /** Which commands and data blocks succeed, in order of issue, how many sectors
      of a failed data block reach the disk all the same, and what the disk
      holds after a command that came while data was still expected. */
  datatype Faults = Faults(
    commandFails: nat -> bool, blockFails: nat -> bool, kept: nat -> nat, upset: (nat, nat) -> Sector)

  // ---- which transfers get through ---------------------------------------

  /** How many of `n` data blocks pass before one fails, the first being number `k`. */
  function Passing(f: Faults, k: nat, n: nat): (r: nat)
    ensures r <= n && (forall i :: k <= i < k + r ==> !f.blockFails(i)) && (r < n ==> f.blockFails(k + r))
    decreases n
  {
    if n == 0 || f.blockFails(k) then 0 else 1 + Passing(f, k + 1, n - 1)
  }

  /** A write of `n` data blocks whose command has number `k` gets through: the
      command is taken, and all blocks pass or one of the retries gets through. */
  predicate Passes(f: Faults, k: nat, n: nat, retry: nat)
    decreases retry
  {
    var done := Passing(f, k + 1, n);
    !f.commandFails(k) && (done == n || (retry > 1 && Passes(f, k + 1 + done + 1, n, retry - 1)))
  }

  /** Every write with so many tries gets through. */
  ghost predicate Reliable(f: Faults, retry: nat) {
    forall k: nat, n: nat :: Passes(f, k, n, retry)
  }

  /** The failing data blocks among those numbered lo to hi. */
  function Failures(f: Faults, lo: nat, hi: nat): nat
    decreases hi - lo
  {
    if lo >= hi then 0 else (if f.blockFails(lo) then 1 else 0) + Failures(f, lo + 1, hi)
  }

  lemma {:induction false} FailuresSplit(f: Faults, lo: nat, mid: nat, hi: nat)
    requires lo <= mid <= hi
    ensures Failures(f, lo, hi) == Failures(f, lo, mid) + Failures(f, mid, hi)
    decreases mid - lo
  {
    if lo < mid { FailuresSplit(f, lo + 1, mid, hi); }
  }

  lemma FirstFailure(f: Faults, k: nat, at: nat, hi: nat)
    requires k <= at < hi && f.blockFails(at)
    ensures Failures(f, k, hi) >= 1 + Failures(f, at + 1, hi)
  {
    FailuresSplit(f, k, at, hi);
  }

  lemma OneTryLess(step: nat, retry: nat)
    ensures step * retry == step * (retry - 1) + step && (retry >= 2 ==> step * (retry - 1) >= step)
  {
    if retry >= 2 && step > 0 { MulAtLeast(step, retry - 1); }
  }

  /** A write gets through if its commands are taken and fewer data blocks fail
      than there are tries. */
  lemma {:induction false} FewFailuresPass(f: Faults, k: nat, n: nat, retry: nat, hi: nat)
    requires forall i: nat :: !f.commandFails(i)
    requires k + (n + 1) * retry <= hi && Failures(f, k, hi) < (if retry == 0 then 1 else retry) && k + n + 1 <= hi
    ensures Passes(f, k, n, retry)
    decreases retry
  {
    var done := Passing(f, k + 1, n);
    if done < n {
      var next := k + 1 + done + 1;
      FirstFailure(f, k, next - 1, hi);
      OneTryLess(n + 1, retry);
      FewFailuresPass(f, next, n, retry - 1, hi);
    }
  }

  /** A drive without faults is reliable, even without retries. */
  lemma FaultlessIsReliable(f: Faults, retry: nat)
    requires forall i: nat :: !f.commandFails(i) && !f.blockFails(i)
    ensures Reliable(f, retry)
  {
    forall k: nat, n: nat ensures Passes(f, k, n, retry) {
      assert Passing(f, k + 1, n) == n;
    }
  }

  /** Of `n` data blocks, numbered from `from` on, all have passed, or those up
      to the first failing one have been sent; the next number is `issued`. */
  predicate Delivered(f: Faults, from: nat, n: nat, issued: nat, status: nat) {
    var done := Passing(f, from, n);
    (status == 0 <==> done == n) && issued == from + done + if status == 0 then 0 else 1
  }

  lemma NoneDelivered(f: Faults, from: nat)
    ensures Delivered(f, from, 0, from, 0)
  {
  }

  /** One block more, of `n` in all. */
  lemma NextDelivered(f: Faults, from: nat, sent: nat, n: nat, issued: nat, status: nat)
    requires Delivered(f, from, sent, issued, 0) && sent < n && (status == 0 <==> !f.blockFails(issued))
    ensures status == 0 ==> Delivered(f, from, sent + 1, issued + 1, 0)
    ensures status != 0 ==> Delivered(f, from, n, issued + 1, status)
  {
    hide Passing;
    var all, more := Passing(f, from, n), Passing(f, from, sent + 1);
  }

  lemma StaysFailed(f: Faults, from: nat, n: nat, issued: nat, status: nat)
    requires Delivered(f, from, n, issued, status) && status != 0
    ensures Delivered(f, from, n + 1, issued, status)
  {
    hide Passing;
    var all, some := Passing(f, from, n + 1), Passing(f, from, n);
  }

  /** The whole blocks among `full` sectors. */
  function WholeBlocks(full: nat, unit: nat): nat
    requires unit > 0
  {
    if full < unit then 0 else 1 + WholeBlocks(full - unit, unit)
  }

  /** The data blocks of a multiple-sector write. */
  function BlockCount(len: Short, block: nat): nat
    requires block > 0
  {
    WholeBlocks(if len == 0 || len > 256 then 256 else len, block) + (if len % block != 0 then 1 else 0)
  }

  class Drive {
    var disk: Disk
    var at: nat                 // where the next data block goes
    var left: nat               // sectors the current command still takes
    var orderly: bool           // no command came while data was still expected
    var issued: nat             // commands and data blocks so far
    const faults: Faults
    const blockSize: nat        // m_maxBlockTransfer
    var file: TaskFile
    const geometry: Geometry
    const index: nat

    ghost predicate Ok()
      reads this
    {
      blockSize > 0 && at + left <= |disk| < 0x1_0000_0000 && ValidGeometry(geometry)
    }

    /** The device is ready for a command. */
    ghost predicate Idle()
      reads this
    {
      orderly && left == 0
    }

    constructor (contents: Disk, block: nat, f: Faults, g: Geometry, i: nat)
      requires block > 0 && |contents| < 0x1_0000_0000 && ValidGeometry(g)
      ensures Ok() && Idle() && disk == contents && blockSize == block && faults == f && geometry == g
    {
      disk, at, left, orderly, issued, faults, blockSize := contents, 0, 0, true, 0, f, block;
      geometry, index := g, i;
      file := TaskFile(Register(0, 0), Register(0, 0), Register(0, 0), Register(0, 0), 0);
    }

    /** BootIdeIssueAtaCommand; the device goes where the registers point, and
        refuses a range that is not on the disk. Nonzero is an error. A command
        while data is expected has no defined effect. */
    method Issue(cmd: Command) returns (status: nat)
      requires Ok()
      modifies this
      ensures Ok() && |disk| == old(|disk|) && orderly == old(Idle())
      ensures orderly ==> disk == old(disk)
      ensures status != 0 ==> left == 0
      ensures orderly && status == 0 ==>
        var t := Latched(old(file), cmd.params);
        at == Addressed(t, cmd.ext, geometry) && left == Announced(t.count, cmd.ext)
      ensures issued == old(issued) + 1
      ensures orderly ==>
        var t := Latched(old(file), cmd.params);
        var lba := Addressed(t, cmd.ext, geometry);
        status == 0 <==> !faults.commandFails(old(issued)) && 0 <= lba && lba + Announced(t.count, cmd.ext) <= |disk|
    {
      hide Addressed, Announced;
      var fails := faults.commandFails(issued);
      file := Latched(file, cmd.params);
      if !orderly || left > 0 {
        var upset, k := faults.upset, issued;
        orderly, disk := false, seq(|disk|, (i: nat) => upset(k, i));
        issued, at, left := issued + 1, 0, 0;
        return if fails then 1 else 0;
      }
      issued := issued + 1;
      var lba, count := Addressed(file, cmd.ext, geometry), Announced(file.count, cmd.ext);
      if fails || lba < 0 || lba + count > |disk| { return 1; }
      at, left := lba, count;
      return 0;
    }

    /** BootIdeReadSector: a whole sector, or `n` of its bytes from `offset` on;
        data errors are retried until they pass. */
    method ReadSector(lba: UInt, offset: nat, n: nat) returns (status: nat, data: seq<Octet>)
      requires Ok() && Expressible(lba, geometry) && (n == 512 || offset + n <= 512)
      modifies this
      ensures Ok() && |disk| == old(|disk|) && orderly == old(Idle()) && (orderly ==> disk == old(disk) && left == 0)
      ensures orderly && status == 0 ==>
        lba < |disk| && data == if n == 512 then disk[lba] else disk[lba][offset..offset + n]
      ensures orderly ==> (status == 0 <==> !faults.commandFails(old(issued)) && lba < |disk|)
    {
      hide Addressed;
      var cmd := EncodeSector(lba, index, geometry);
      SectorDecodesExactly(file, lba, index, geometry);
      status := Issue(cmd);
      data := [];
      if status == 0 && left > 0 {
        var sector := disk[at];
        at, left := at + 1, left - 1;
        if n != 512 { data := sector[offset..offset + n]; } else { data := sector; }
      }
    }

    /** BootIdeWriteData: the device takes no more than it still expects. */
    method Data(block: seq<Sector>) returns (status: nat)
      requires Ok()
      modifies this
      ensures Ok() && orderly == old(orderly)
      ensures status == 0 ==>
        var n := Min(|block|, old(left));
        disk == Stored(old(disk), old(at), block[..n]) && at == old(at) + n && left == old(left) - n
      ensures status != 0 ==>
        left == 0 && SameOutside(disk, old(disk), old(at), old(at) + Min(|block|, old(left)))
      ensures issued == old(issued) + 1 && (status == 0 <==> !faults.blockFails(old(issued)))
    {
      var fails, kept := faults.blockFails(issued), faults.kept(issued);
      issued := issued + 1;
      var n := Min(|block|, left);
      if fails {
        disk := Stored(disk, at, block[..Min(kept, n)]);
        at, left := 0, 0;
        return 2;
      }
      disk := Stored(disk, at, block[..n]);
      at, left := at + n, left - n;
      return 0;
    }

    /** BootIdeWriteSector */
    method WriteSector(data: Sector, lba: UInt, retry: nat) returns (status: nat)
      requires Ok() && Expressible(lba, geometry)
      modifies this
      decreases retry
      ensures Ok() && |disk| == old(|disk|) && orderly == old(Idle())
      ensures orderly ==> left == 0 && SameOutside(disk, old(disk), lba, lba + 1)
      ensures orderly && status == 0 ==> lba < |disk| && disk == old(disk)[lba := data]
      ensures orderly && lba < |disk| ==> (status == 0 <==> Passes(faults, old(issued), 1, retry))
    {
      hide Addressed;
      var cmd := EncodeSector(lba, index, geometry);
      SectorDecodesExactly(file, lba, index, geometry);
      status := Issue(cmd);
      if status != 0 { return 1; }
      status := Data([data]);
      var again := if retry > 0 then retry - 1 else 0;
      if status != 0 && again > 0 {
        status := WriteSector(data, lba, again);
      }
    }

    /** The command took effect up to sector `i` of the buffer. */
    ghost predicate Sending(was: Disk, start: nat, n: nat, buffer: seq<Sector>, i: nat)
      reads this
    {
      && Ok() && start + n <= |was| && i <= |buffer|
      && disk == Stored(was, start, buffer[..Min(i, n)]) && at == start + Min(i, n) && left == n - Min(i, n)
    }

    /** Sectors i to j of the buffer. */
    method SendPiece(buffer: seq<Sector>, i: nat, j: nat, ghost was: Disk, ghost start: nat, ghost n: nat)
      returns (status: nat)
      requires i <= j <= |buffer| && Sending(was, start, n, buffer, i)
      modifies this
      ensures Ok() && orderly == old(orderly) && SameOutside(disk, was, start, start + Min(j, n))
      ensures status == 0 ==> Sending(was, start, n, buffer, j)
      ensures status != 0 ==> left == 0
      ensures issued == old(issued) + 1 && (status == 0 <==> !faults.blockFails(old(issued)))
    {
      hide Stored, SameOutside;
      ghost var mid, from := disk, at;
      StoredExtends(was, start, buffer, i, j, n);
      StoredSame(was, start, buffer[..Min(i, n)]);
      status := Data(buffer[i..j]);
      if status == 0 {
        StoredSame(was, start, buffer[..Min(j, n)]);
      } else {
        SameOutsideBoth(disk, mid, was, from, from + Min(j - i, n - Min(i, n)), start, start + Min(i, n), start + Min(j, n));
      }
    }

    /** The full blocks among the first `full` sectors. */
    method SendWholeBlocks(buffer: seq<Sector>, full: nat) returns (status: nat, ptr: nat)
      requires Ok() && WholePart(full, blockSize) <= |buffer|
      modifies this
      ensures Ok() && orderly == old(orderly)
      ensures SameOutside(disk, old(disk), old(at), old(at) + Min(WholePart(full, blockSize), old(left)))
      ensures status != 0 ==> left == 0
      ensures status == 0 ==>
        ptr == WholePart(full, blockSize) && Sending(old(disk), old(at), old(left), buffer, ptr)
      ensures Delivered(faults, old(issued), WholeBlocks(full, blockSize), issued, status)
    {
      hide Stored, SameRest, SameOutside, WholePart, Delivered;
      ghost var sent, from, total := 0, issued, WholeBlocks(full, blockSize);
      NoneDelivered(faults, from);
      var remainingLen: nat := full;
      ptr := 0;
      ghost var was, start, n, end := disk, at, left, Min(WholePart(full, blockSize), left);
      StoredNothing(disk, at);
      assert buffer[..0] == [];
      SameOutsideWiden(disk, was, start, start, start + end);
      RestStays(remainingLen, blockSize);
      status := 0;
      while remainingLen >= blockSize && status == 0
        invariant Ok() && orderly == old(orderly) && (status != 0 ==> left == 0)
        invariant ptr + remainingLen == full && SameRest(remainingLen, full, blockSize)
        invariant ptr <= WholePart(full, blockSize)
        invariant SameOutside(disk, was, start, start + end)
        invariant status == 0 ==> Sending(was, start, n, buffer, ptr)
        invariant sent + WholeBlocks(remainingLen, blockSize) == total
        invariant Delivered(faults, from, if status == 0 then sent else total, issued, status)
        decreases remainingLen
      {
        BlockStep(remainingLen, full, blockSize);
        ghost var k := issued;
        status := SendPiece(buffer, ptr, ptr + blockSize, was, start, n);
        NextDelivered(faults, from, sent, total, k, status);
        sent := sent + 1;
        ptr := ptr + blockSize;
        remainingLen := remainingLen - blockSize;
        SameOutsideWiden(disk, was, start, start + Min(ptr, n), start + end);
      }
      if status == 0 { BlockEnd(remainingLen, full, blockSize); }
    }

    /** The data of one multiple-sector command: full blocks, then a partial one. */
    method SendBlocks(buffer: seq<Sector>, len: Short) returns (status: nat)
      requires Ok() && Sent(len, blockSize) <= |buffer|
      modifies this
      ensures Ok() && orderly == old(orderly)
      ensures SameOutside(disk, old(disk), old(at), old(at) + Min(Sent(len, blockSize), old(left)))
      ensures status == 0 ==>
        && disk == Stored(old(disk), old(at), buffer[..Min(Sent(len, blockSize), old(left))])
        && left == old(left) - Min(Sent(len, blockSize), old(left))
      ensures status != 0 ==> left == 0
      ensures Delivered(faults, old(issued), BlockCount(len, blockSize), issued, status)
    {
      hide Stored, SameOutside, Sent, WholePart, Delivered, WholeBlocks;
      var remainingLen := if len == 0 || len > 256 then 256 else len;
      var partialBlock := len % blockSize;
      ghost var was, start, n := disk, at, left;
      SentParts(len, remainingLen, blockSize);
      var ptr;
      status, ptr := SendWholeBlocks(buffer, remainingLen);
      SameOutsideWiden(disk, was, start, start + Min(WholePart(remainingLen, blockSize), n),
                       start + Min(Sent(len, blockSize), n));
      if partialBlock != 0 && status != 0 {
        StaysFailed(faults, old(issued), WholeBlocks(remainingLen, blockSize), issued, status);
      }
      if partialBlock != 0 && status == 0 {
        ghost var k, whole := issued, WholeBlocks(remainingLen, blockSize);
        status := SendPiece(buffer, ptr, ptr + partialBlock, was, start, n);
        NextDelivered(faults, old(issued), whole, whole + 1, k, status);
      }
    }

    /** One try of a multiple-sector write; `again` says that the data failed,
        which calls for another one. */
    method TryMultiple(buffer: seq<Sector>, start: UInt, len: Short) returns (status: nat, again: bool)
      requires Ok() && Expressible(start, geometry) && start + len < 0x1_0000_0000
      requires Sent(len, blockSize) <= |buffer|
      modifies this
      ensures Ok() && |disk| == old(|disk|) && orderly == old(Idle()) && (again ==> status != 0)
      ensures orderly ==> SameOutside(disk, old(disk), start, start + Min(Sent(len, blockSize), Expected(start, len)))
      ensures orderly && (status == 0 || again) ==> start + Expected(start, len) <= |disk|
      ensures orderly && status == 0 ==>
        var n := Min(Sent(len, blockSize), Expected(start, len));
        && disk == Stored(old(disk), start, buffer[..n])
        && left == Expected(start, len) - n
      ensures status != 0 ==> left == 0
      ensures orderly && start + Expected(start, len) <= |disk| ==>
        var k, n := old(issued), BlockCount(len, blockSize);
        if faults.commandFails(k) then status != 0 && !again
        else Delivered(faults, k + 1, n, issued, status) && (again <==> status != 0)
    {
      hide Stored, Sent, Addressed, Announced, Expected, SameOutside, BlockCount, Delivered;
      var cmd := EncodeMultiple(start, len, index, geometry);
      MultipleDecodesExactly(file, start, len, index, geometry);
      SameOutsideWiden(disk, disk, start, start, start + Min(Sent(len, blockSize), Expected(start, len)));
      status := Issue(cmd);
      if status != 0 { return 1, false; }
      label Issued:
      ghost var from, n := at, Min(Sent(len, blockSize), left);
      status := SendBlocks(buffer, len);
      SameLength(disk, old@Issued(disk), from, from + n);
      again := status != 0;
    }

    /** BootIdeWriteMultiple: on success the device may still expect data. */
    method WriteMultiple(buffer: seq<Sector>, start: UInt, len: Short, retry: nat) returns (status: nat)
      requires Ok() && Expressible(start, geometry) && start + len < 0x1_0000_0000
      requires Sent(len, blockSize) <= |buffer|
      modifies this
      decreases retry
      ensures Ok() && |disk| == old(|disk|) && orderly == old(Idle())
      ensures orderly ==> SameOutside(disk, old(disk), start, start + Min(Sent(len, blockSize), Expected(start, len)))
      ensures orderly && status == 0 ==>
        var n := Min(Sent(len, blockSize), Expected(start, len));
        && start + n <= |disk| && disk == Stored(old(disk), start, buffer[..n])
        && left == Expected(start, len) - n
      ensures status != 0 ==> left == 0
      ensures orderly && start + Expected(start, len) <= |disk| ==>
        (status == 0 <==> Passes(faults, old(issued), BlockCount(len, blockSize), retry))
    {
      hide Stored, Sent, Addressed, Announced, Expected, SameOutside, BlockCount, Passing, Expressible;
      var again;
      status, again := TryMultiple(buffer, start, len);
      var tries := if retry > 0 then retry - 1 else 0;
      if again && tries > 0 {
        ghost var n, mid := Min(Sent(len, blockSize), Expected(start, len)), disk;
        status := WriteMultiple(buffer, start, len, tries);
        if orderly {
          SameOutsideBoth(disk, mid, old(disk), start, start + n, start, start + n, start + n);
          if status == 0 { StoredOver(mid, old(disk), start, buffer[..n]); }
        }
      }
    }
  }

  lemma SameLength(disk: Disk, was: Disk, lo: nat, hi: nat)
    requires SameOutside(disk, was, lo, hi)
    ensures |disk| == |was|
  {
  }

  lemma StoredOver(disk: Disk, was: Disk, lba: nat, data: seq<Sector>)
    requires lba + |data| <= |disk| && SameOutside(disk, was, lba, lba + |data|)
    ensures Stored(disk, lba, data) == Stored(was, lba, data)
  {
  }

  lemma StoredSame(disk: Disk, lba: nat, data: seq<Sector>)
    requires lba + |data| <= |disk|
    ensures SameOutside(Stored(disk, lba, data), disk, lba, lba + |data|)
  {
  }

  lemma SameOutsideBoth(disk: Disk, mid: Disk, was: Disk, lo: nat, hi: nat, lo': nat, hi': nat, end: nat)
    requires SameOutside(disk, mid, lo, hi) && SameOutside(mid, was, lo', hi')
    requires lo' <= lo && hi <= end && hi' <= end
    ensures SameOutside(disk, was, lo', end)
  {
  }

  lemma SameOutsideWiden(disk: Disk, was: Disk, lo: nat, hi: nat, hi': nat)
    requires hi <= hi' && (disk == was || SameOutside(disk, was, lo, hi))
    ensures SameOutside(disk, was, lo, hi')
  {
  }

  lemma StoredNothing(disk: Disk, lba: nat)
    requires lba <= |disk|
    ensures Stored(disk, lba, []) == disk
  {
  }

  /** The part of `full` that whole blocks cover. */
  function WholePart(full: nat, unit: nat): (r: nat)
    requires unit > 0
    ensures r <= full < r + unit
  {
    ModAtMost(full, unit);
    full - full % unit
  }

  lemma SentParts(len: Short, full: nat, block: nat)
    requires block > 0 && full == if len == 0 || len > 256 then 256 else len
    ensures Sent(len, block) == WholePart(full, block) + len % block && 0 <= len % block
  {
  }

  predicate SameRest(a: nat, b: nat, unit: nat) {
    unit > 0 && a % unit == b % unit
  }

  lemma RestStays(a: nat, unit: nat)
    requires unit > 0
    ensures SameRest(a, a, unit)
  {
  }

  lemma BlockStep(rem: nat, full: nat, unit: nat)
    requires SameRest(rem, full, unit) && rem >= unit
    ensures SameRest(rem - unit, full, unit) && full - rem + unit <= WholePart(full, unit)
  {
    ModShift(unit, 1, rem - unit);
    ModAtMost(rem - unit, unit);
  }

  lemma BlockEnd(rem: nat, full: nat, unit: nat)
    requires SameRest(rem, full, unit) && rem < unit
    ensures full - rem == WholePart(full, unit)
  {
    DivModUnique(rem, unit, 0, rem);
  }
}
