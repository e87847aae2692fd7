/**
 The bounded search for PLL settings of the Focus video encoder
 (focus_calc_pll_settings in drivers/video/focus.c).
 */
module FocusPll {
  import opened Types

  /** The NCO output clock for each multiplier is a given whole number; the
      original computes it in single precision. */
  datatype Settings = Settings(dotclock: int, ncon: nat, ncod: int -> nat, nco: int -> nat)

  // ---- what a solution is ------------------------------------------------

  predicate InputOk(s: Settings, p: int, n: int)
    requires n > 0
  {
    100000 <= s.nco(p) / n <= 1000000
  }

  /** The output clock is in range and matches the pixel clock within 1. */
  predicate OutputOk(s: Settings, input: int, p: int, m: int)
    requires p > 0
  {
    100000000 <= input * m <= 300000000 && -1 <= input * m / p - s.dotclock <= 1
  }

  predicate Works(s: Settings, p: int, n: int, m: int) {
    && 4 <= p < 6 && 2 <= n < 270 && 2 <= m < 3000
    && InputOk(s, p, n) && OutputOk(s, s.nco(p) / n, p, m)
  }

  /** The order in which triples are tried. */
  predicate Earlier(p: int, n: int, m: int, p': int, n': int, m': int) {
    p < p' || (p == p' && (n < n' || (n == n' && m < m')))
  }

  /** The multiplier field cannot go negative: a working M is at least 100. */
  lemma WorkingMultiplier(s: Settings, p: int, n: int, m: int)
    requires Works(s, p, n, m)
    ensures 100 <= m < 3000
  {
    var input := s.nco(p) / n;
    assert (1000000 - input) * m >= 0;
    assert (1000000 - input) * m == 1000000 * m - input * m;
  }

  // ---- registers ---------------------------------------------------------

  function ByteOf(v: nat, k: nat): Octet {
    match k
    case 0 => v % 0x100
    case 1 => v / 0x100 % 0x100
    case 2 => v / 0x1_0000 % 0x100
    case _ => v / 0x100_0000 % 0x100
  }

  /** The registers hold the triple and the two NCO numbers. */
  ghost predicate Encodes(regs: array<Octet>, s: Settings, p: nat, n: nat, m: nat)
    requires regs.Length >= 0x1E && m >= 17 && n >= 1 && p >= 1
    reads regs
  {
    && (forall k :: 0 <= k < 4 ==> regs[0x10 + k] == ByteOf(s.ncon, k) && regs[0x14 + k] == ByteOf(s.ncod(p), k))
    && regs[0x18] == ByteOf(m - 17, 0) && regs[0x19] == ByteOf(m - 17, 1)
    && regs[0x1A] == ByteOf(n - 1, 0) && regs[0x1B] == ByteOf(n - 1, 1)
    && regs[0x1C] == regs[0x1D] == ByteOf(p - 1, 0)
  }

  // What the encoder reads from its registers.
  function DecodedM(regs: seq<Octet>): int
    requires |regs| >= 0x1E
  {
    var lo: int, hi: int := regs[0x18], regs[0x19];
    lo + 0x100 * hi + 17
  }

  function DecodedN(regs: seq<Octet>): int
    requires |regs| >= 0x1E
  {
    var lo: int, hi: int := regs[0x1A], regs[0x1B];
    lo + 0x100 * hi + 1
  }

  function DecodedP(regs: seq<Octet>): int
    requires |regs| >= 0x1E
  {
    var v: int := regs[0x1C];
    v + 1
  }

  function Decoded32(regs: seq<Octet>, at: nat): int
    requires at + 4 <= |regs|
  {
    var b0: int, b1: int, b2: int, b3: int := regs[at], regs[at + 1], regs[at + 2], regs[at + 3];
    b0 + 0x100 * b1 + 0x1_0000 * b2 + 0x100_0000 * b3
  }

  method Store(regs: array<Octet>, s: Settings, p: nat, n: nat, m: nat)
    requires regs.Length >= 0x1E && m >= 17 && n >= 1 && p >= 1
    modifies regs
    ensures Encodes(regs, s, p, n, m)
    ensures forall i :: 0 <= i < regs.Length && !(0x10 <= i < 0x1E) ==> regs[i] == old(regs[i])
  {
    for k := 0 to 4
      invariant forall j :: 0 <= j < k ==> regs[0x10 + j] == ByteOf(s.ncon, j) && regs[0x14 + j] == ByteOf(s.ncod(p), j)
      invariant forall i :: 0 <= i < regs.Length && !(0x10 <= i < 0x18) ==> regs[i] == old(regs[i])
    {
      regs[0x10 + k] := ByteOf(s.ncon, k);
      regs[0x14 + k] := ByteOf(s.ncod(p), k);
    }
    regs[0x18] := ByteOf(m - 17, 0);
    regs[0x19] := ByteOf(m - 17, 1);
    regs[0x1A] := ByteOf(n - 1, 0);
    regs[0x1B] := ByteOf(n - 1, 1);
    regs[0x1C] := ByteOf(p - 1, 0);
    regs[0x1D] := ByteOf(p - 1, 0);
  }

  /** What was stored decodes to the triple. */
  lemma Decodes(regs: array<Octet>, s: Settings, p: nat, n: nat, m: nat)
    requires regs.Length >= 0x1E && 17 <= m < 0x1_0000 && 1 <= n < 0x1_0000 && 1 <= p <= 0x100 && Encodes(regs, s, p, n, m)
    ensures DecodedP(regs[..]) == p && DecodedN(regs[..]) == n && DecodedM(regs[..]) == m
    ensures Decoded32(regs[..], 0x10) == s.ncon % 0x1_0000_0000 && Decoded32(regs[..], 0x14) == s.ncod(p) % 0x1_0000_0000
    ensures regs[0x1D] == p - 1
  {
    hide ByteOf;
    FourBytes(s.ncon);
    FourBytes(s.ncod(p));
    TwoBytes(m - 17);
    TwoBytes(n - 1);
    TwoBytes(p - 1);
    assert regs[0x10 + 0] == ByteOf(s.ncon, 0) && regs[0x10 + 1] == ByteOf(s.ncon, 1);
    assert regs[0x10 + 2] == ByteOf(s.ncon, 2) && regs[0x10 + 3] == ByteOf(s.ncon, 3);
    assert regs[0x14 + 0] == ByteOf(s.ncod(p), 0) && regs[0x14 + 1] == ByteOf(s.ncod(p), 1);
    assert regs[0x14 + 2] == ByteOf(s.ncod(p), 2) && regs[0x14 + 3] == ByteOf(s.ncod(p), 3);
  }

  lemma TwoBytes(v: nat)
    requires v < 0x1_0000
    ensures ByteOf(v, 0) + 0x100 * ByteOf(v, 1) == v && (v < 0x100 ==> ByteOf(v, 0) == v)
  {
  }

  lemma FourBytes(v: nat)
    ensures ByteOf(v, 0) + 0x100 * ByteOf(v, 1) + 0x1_0000 * ByteOf(v, 2) + 0x100_0000 * ByteOf(v, 3) == v % 0x1_0000_0000
  {
    var a := v / 0x100;
    var b := a / 0x100;
    var c := b / 0x100;
    assert v / 0x1_0000 == b && v / 0x100_0000 == c;
    assert v == v % 0x100 + 0x100 * (a % 0x100) + 0x1_0000 * (b % 0x100) + 0x100_0000 * (c % 0x100) + 0x1_0000_0000 * (c / 0x100);
  }

  // ---- the search --------------------------------------------------------

  /** The value of a 32-bit long after an overflow. */
  function Long(v: int): int {
    (v + 0x8000_0000) % 0x1_0000_0000 - 0x8000_0000
  }

  /** The product overflows for some M, but then it is negative and out of range. */
  lemma OverflowIsOutOfRange(input: int, m: int)
    requires 100000 <= input <= 1000000 && 2 <= m < 3000
    ensures Long(input * m) == input * m || (Long(input * m) < 0 && input * m > 300000000)
  {
    assert (1000000 - input) * m >= 0;
    assert (1000000 - input) * m == 1000000 * m - input * m;
    assert input * m >= 0;
  }

  /** It does overflow. */
  lemma ProductOverflows()
    ensures Long(1000000 * 2148) < 0
  {
  }

  /** The innermost loop: the first M that works for this input clock. */
  method FindM(s: Settings, input: int, p: int) returns (m: int)
    requires p > 0 && 100000 <= input <= 1000000
    ensures 2 <= m <= 3000 && (m < 3000 ==> OutputOk(s, input, p, m))
    ensures forall k :: 2 <= k < m ==> !OutputOk(s, input, p, k)
  {
    hide Long;
    m := 2;
    while m < 3000
      invariant 2 <= m <= 3000 && forall k :: 2 <= k < m ==> !OutputOk(s, input, p, k)
    {
      OverflowIsOutOfRange(input, m);
      var outClk := Long(input * m);
      if 100000000 <= outClk <= 300000000 {
        var clk := outClk / p;
        if clk == s.dotclock || clk + 1 == s.dotclock || clk - 1 == s.dotclock { return; }
      }
      m := m + 1;
    }
  }

  /** The loop over N for one multiplier. */
  method FindN(s: Settings, p: int) returns (n: int, m: int)
    requires 4 <= p < 6
    ensures 2 <= n <= 270 && (n < 270 ==> Works(s, p, n, m))
    ensures n < 270 ==> forall k :: 2 <= k < m ==> !Works(s, p, n, k)
    ensures forall n', m' :: 2 <= n' < n ==> !Works(s, p, n', m')
  {
    hide OutputOk;
    n, m := 2, 0;
    while n < 270
      invariant 2 <= n <= 270 && forall n', m' :: 2 <= n' < n ==> !Works(s, p, n', m')
    {
      var input := s.nco(p) / n;
      if 100000 <= input <= 1000000 {
        m := FindM(s, input, p);
        if m < 3000 { return; }
      }
      n := n + 1;
    }
  }

  /** focus_calc_pll_settings: a result of 1 leaves registers that decode to the
      first triple that works; a result of 0 means that none does. */
  method CalcPllSettings(s: Settings, regs: array<Octet>) returns (r: int)
    requires regs.Length >= 0x1E
    modifies regs
    ensures r == 0 || r == 1
    ensures r == 0 ==> regs[..] == old(regs[..]) && forall p, n, m :: !Works(s, p, n, m)
    ensures r == 1 ==>
      var p, n, m := DecodedP(regs[..]), DecodedN(regs[..]), DecodedM(regs[..]);
      && Works(s, p, n, m) && m >= 100
      && regs[0x1D] == p - 1 && Decoded32(regs[..], 0x10) == s.ncon % 0x1_0000_0000
      && Decoded32(regs[..], 0x14) == s.ncod(p) % 0x1_0000_0000
      && (forall p', n', m' :: Earlier(p', n', m', p, n, m) ==> !Works(s, p', n', m'))
    ensures forall i :: 0 <= i < regs.Length && !(0x10 <= i < 0x1E) ==> regs[i] == old(regs[i])
  {
    hide InputOk, OutputOk, Encodes, DecodedP, DecodedN, DecodedM, Decoded32, ByteOf;
    var p := 4;
    while p < 6
      invariant 4 <= p <= 6 && regs[..] == old(regs[..])
      invariant forall p', n', m' :: p' < p ==> !Works(s, p', n', m')
    {
      var n, m := FindN(s, p);
      if n < 270 {
        WorkingMultiplier(s, p, n, m);
        Store(regs, s, p, n, m);
        Decodes(regs, s, p, n, m);
        return 1;
      }
      p := p + 1;
    }
    r := 0;
  }
}
