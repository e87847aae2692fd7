/**
 The flash programming state machine (drivers/flash/FlashDriver.c): one small
 step per call of Flash_executeFlashFSM, as a function on values.
 */
module FlashDriver {
  import opened FlashChip
  import opened FlashLowLevel

  const BUFFER_SIZE: nat := 1024 * KB
  const ERASE_BUSY_COUNT_MIN: nat := 3
  const IDENTIFIER_SIZE: nat := 63
  const CRC_SIZE: nat := 4
  const SETTINGS_VERSION: Byte := 1

  datatype FlashOp = Idle | Pending | Erasing | Writing | Verifying | Reading | Completed | Failed
  datatype FlashTask = NoTask | WriteBios | ReadBios | WriteSettings | ReadSettings
  datatype ErrorCode =
    | NoError | FailedErase | FailedVerify | UnknownFlash | FileSizeError
    | FlashContentError | WriteProtect | InvalidUpdateFile | DowngradeWarning | Md5Mismatch | UndefinedError

  /** The memory image of a 32-bit word. */
  datatype Word = Word(b0: Byte, b1: Byte, b2: Byte, b3: Byte) {
    function Bytes(): seq<Byte> { [b0, b1, b2, b3] }
  }

  /** The statics of FlashDriver.c, the global settings struct (as its bytes)
      and what the device table says about the chip. */
  datatype Driver = Driver(
    op: FlashOp, task: FlashTask, error: ErrorCode,
    buffer: seq<Byte>, size: nat, start: nat, cur: nat,
    eraseMethod: EraseMethod, busyCount: nat, firstTry: bool,
    small: bool, settings: seq<Byte>)

  datatype World = World(d: Driver, port: Port, crc32: seq<Byte> -> Word)

  // ---- pure helpers ------------------------------------------------------

  /** canWrite: no bit has to go from 0 to 1. */
  predicate CanWrite(flashByte: Byte, bufferByte: Byte) {
    !flashByte & bufferByte == 0
  }

  /** getEraseMethodSize */
  function EraseSize(m: EraseMethod, small: bool): (r: nat)
    ensures IsUnit(r)
  {
    match m
    case Sector => if small then SECTOR_SIZE else BLOCK_SIZE
    case Block => BLOCK_SIZE
    case ChipWide => IMAGE_SIZE
  }

  /** The wider erase to try after `m` was ignored. */
  function NextMethod(m: EraseMethod, small: bool): EraseMethod {
    if m == Sector && small then Block else ChipWide
  }

  function LittleEndian(s: seq<Byte>): nat
    requires |s| == 4
  {
    s[0] as nat + 0x100 * s[1] as nat + 0x1_0000 * s[2] as nat + 0x100_0000 * s[3] as nat
  }

  const PROG_NAME: seq<Byte> := [0x58, 0x42, 0x6C, 0x61, 0x73, 0x74, 0x20, 0x4F, 0x53]  // "XBlast OS"

  /** The identifier names a build whose settings location is computed. */
  predicate LocatesSettings(id: seq<Byte>)
    requires |id| == IDENTIFIER_SIZE
  {
    (id[4] == 1 || id[4] == 2) && id[15..24] == PROG_NAME && id[8] & 1 != 0
  }

  /** getXBlastOSSettingStartingOffset on the 63 bytes of a BiosIdentifier. */
  function SettingsOffset(id: seq<Byte>): nat
    requires |id| == IDENTIFIER_SIZE
  {
    if LocatesSettings(id) then
      var biosSize := LittleEndian(id[11..15]);
      if biosSize >= IMAGE_SIZE then 0
      else if biosSize < 3 * BLOCK_SIZE then 3 * BLOCK_SIZE
      else (biosSize + SECTOR_SIZE - 1) % SECTOR_SIZE
    else 0
  }

  function Identifier(mem: seq<Byte>): (r: seq<Byte>)
    requires |mem| >= IMAGE_SIZE
    ensures |r| == IDENTIFIER_SIZE
  {
    mem[IMAGE_SIZE - IDENTIFIER_SIZE..IMAGE_SIZE]
  }

  /** memcpy into a buffer that is large enough. */
  function Overwrite(buffer: seq<Byte>, at: nat, data: seq<Byte>): (r: seq<Byte>)
    requires at + |data| <= |buffer|
    ensures |r| == |buffer|
    ensures forall i :: 0 <= i < |r| ==> r[i] == if at <= i < at + |data| then data[i - at] else buffer[i]
  {
    seq(|buffer|, i requires 0 <= i < |buffer| =>
      if at <= i < at + |data| then data[i - at] else buffer[i])
  }

  /** The settings struct with its trailing CRC recomputed. */
  function Sealed(settings: seq<Byte>, crc32: seq<Byte> -> Word): (r: seq<Byte>)
    requires |settings| >= CRC_SIZE
    ensures |r| == |settings|
  {
    var body := settings[..|settings| - CRC_SIZE];
    body + crc32(body).Bytes()
  }

  /** `v` is the settings as they were, up to the CRC of the rest in the last four bytes. */
  predicate Carries(v: seq<Byte>, settings: seq<Byte>, crc32: seq<Byte> -> Word) {
    var body := |settings| - CRC_SIZE;
    && |v| == |settings| >= CRC_SIZE && v[..body] == settings[..body]
    && v[body..] == crc32(settings[..body]).Bytes()
  }

  /** injectSettingsInBuf */
  function Inject(d: Driver, crc32: seq<Byte> -> Word, offset: nat): (r: Driver)
    requires offset != 0 ==> d.size > 0 && CRC_SIZE <= |d.settings| && d.size + |d.settings| <= |d.buffer|
    ensures r == d.(settings := r.settings, buffer := r.buffer)
    ensures |r.settings| == |d.settings| && |r.buffer| == |d.buffer|
  {
    if offset == 0 then d
    else
      var sealed := Sealed(d.settings, crc32);
      d.(settings := sealed, buffer := Overwrite(d.buffer, offset % d.size, sealed))
  }

  lemma AlignedFits(a: nat, size: nat)
    requires IsUnit(size)
    ensures a < IMAGE_SIZE ==> AlignDown(a, size) + size <= IMAGE_SIZE
  {
  }

  /** evaluateReadBackRange; `start & ~(size - 1)` is AlignDown as sizes are powers of two. */
  function ReadBack(d: Driver): (r: Driver)
    ensures d.start < IMAGE_SIZE ==> r.start + r.size <= IMAGE_SIZE
  {
    var size := EraseSize(d.eraseMethod, d.small);
    AlignedFits(d.start, size);
    d.(start := AlignDown(d.start, size), size := size, cur := 0, op := Reading)
  }

  // ---- what a step decides -----------------------------------------------

  predicate Active(op: FlashOp) {
    op != Idle && op != Completed && op != Failed
  }

  /** Everything a step needs to stay inside the buffer and the chip. */
  predicate Fits(d: Driver, length: nat) {
    && length >= IMAGE_SIZE
    && |d.buffer| == BUFFER_SIZE && CRC_SIZE <= |d.settings| <= SECTOR_SIZE
    && (Active(d.op) ==>
          && 0 < d.size <= BUFFER_SIZE && d.start + d.size <= length
          && (d.task == WriteSettings ==> d.start + d.size <= IMAGE_SIZE)
          && (d.op == Writing || d.op == Verifying || d.cur < d.size)
          && d.cur <= d.size)
  }

  /** The new driver state, and whether a command goes to the chip. */
  datatype Decision = Decision(d: Driver, send: bool)

  function Advanced(d: Driver): Driver {
    var d' := d.(cur := d.cur + 1, firstTry := true, busyCount := 0);
    if d'.cur >= d.size then d'.(op := Writing, cur := 0) else d'
  }

  predicate Escalates(d: Driver) {
    !d.firstTry && d.busyCount < ERASE_BUSY_COUNT_MIN
  }

  function NextTry(d: Driver): Driver {
    d.(firstTry := true, busyCount := 0, eraseMethod := NextMethod(d.eraseMethod, d.small))
  }

  /** The erase phase, on the byte found at the current address. */
  function EraseDecision(d: Driver, byte: Byte, ghost length: nat): (r: Decision)
    requires Fits(d, length) && d.op == Erasing
    ensures Fits(r.d, length) && (r.send ==> r.d.op == Erasing)
  {
    if CanWrite(byte, d.buffer[d.cur]) then Decision(Advanced(d), false)
    else if !Escalates(d) then Decision(d.(firstTry := false), true)
    else if d.eraseMethod == ChipWide then
      Decision(d.(firstTry := true, busyCount := 0, op := Failed, error := FailedErase), false)
    else if d.task == WriteSettings then Decision(ReadBack(NextTry(d)), false)
    else Decision(NextTry(d).(firstTry := false), true)
  }

  /** The five outcomes of the erase phase. */
  lemma DecisionCases(d: Driver, byte: Byte, length: nat)
    requires Fits(d, length) && d.op == Erasing
    ensures var e, writable := EraseDecision(d, byte, length), CanWrite(byte, d.buffer[d.cur]);
      && (writable ==> e == Decision(Advanced(d), false))
      && (!writable && !Escalates(d) ==> e == Decision(d.(firstTry := false), true))
      && (!writable && Escalates(d) && d.eraseMethod == ChipWide ==>
            e == Decision(d.(firstTry := true, busyCount := 0, op := Failed, error := FailedErase), false))
      && (!writable && Escalates(d) && d.eraseMethod != ChipWide && d.task == WriteSettings ==>
            e == Decision(ReadBack(NextTry(d)), false))
      && (!writable && Escalates(d) && d.eraseMethod != ChipWide && d.task != WriteSettings ==>
            e == Decision(NextTry(d).(firstTry := false), true))
  {
    hide CanWrite, Advanced, ReadBack, NextTry;
  }

  function VerifyDecision(d: Driver, byte: Byte, ghost length: nat): (r: Driver)
    requires Fits(d, length) && d.op == Verifying && d.cur < d.size
    ensures Fits(r, length)
  {
    if byte == d.buffer[d.cur] then d.(cur := d.cur + 1)
    else d.(op := Failed, error := FailedVerify)
  }

  /** The read phase; a read that reaches the end of the range rewinds. */
  function ReadDecision(d: Driver, byte: Byte, ghost length: nat): (r: Driver)
    requires Fits(d, length) && d.op == Reading
    ensures Fits(r, length) && r.op == Reading
  {
    var d' := d.(buffer := d.buffer[d.cur := byte], cur := d.cur + 1);
    if d'.cur < d.size then d' else d'.(cur := 0)
  }

  function Begin(d: Driver, ghost length: nat): (r: Driver)
    requires Fits(d, length) && d.op == Pending
    ensures Fits(r, length)
  {
    match d.task
    case NoTask => d
    case WriteBios => d.(op := Erasing)
    case _ => d.(op := Reading)
  }

  // ---- one call of Flash_executeFlashFSM ---------------------------------

  datatype Acted = Acted(d: Driver, chip: Chip)

  predicate InStep(d: Driver, c: Chip) {
    Fits(d, |c.mem|) && c.small == d.small && c.decoder == Ready
  }

  function ActErase(d: Driver, c: Chip): (r: Acted)
    requires InStep(d, c) && d.op == Erasing
    ensures InStep(r.d, r.chip)
  {
    var b := DataRead(c, d.start + d.cur);
    var e := EraseDecision(d, b.byte, |c.mem|);
    Acted(e.d, if e.send then SendErase(b.chip, e.d.eraseMethod, e.d.start + e.d.cur) else b.chip)
  }

  function ActWrite(d: Driver, c: Chip): (r: Acted)
    requires InStep(d, c) && d.op == Writing
    ensures InStep(r.d, r.chip)
  {
    if d.cur >= d.size then Acted(d.(op := Verifying, cur := 0), c)
    else
      var b := DataRead(c, d.start + d.cur);
      Acted(d.(cur := d.cur + 1),
            if b.byte != d.buffer[d.cur] then SendProgram(b.chip, d.start + d.cur, d.buffer[d.cur]) else b.chip)
  }

  function ActVerify(d: Driver, c: Chip): (r: Acted)
    requires InStep(d, c) && d.op == Verifying
    ensures InStep(r.d, r.chip)
  {
    if d.cur >= d.size then Acted(d.(op := Completed), c)
    else
      var b := DataRead(c, d.start + d.cur);
      Acted(VerifyDecision(d, b.byte, |c.mem|), b.chip)
  }

  function ActRead(d: Driver, c: Chip, crc32: seq<Byte> -> Word): (r: Acted)
    requires InStep(d, c) && d.op == Reading
    ensures InStep(r.d, r.chip)
  {
    var b := DataRead(c, d.start + d.cur);
    var d' := ReadDecision(d, b.byte, |c.mem|);
    if d'.cur > 0 then Acted(d', b.chip)
    else if d.task == WriteSettings then
      var id := ReadSpan(b.chip, IMAGE_SIZE - IDENTIFIER_SIZE, IDENTIFIER_SIZE);
      Acted(Inject(d', crc32, SettingsOffset(id.bytes)).(op := Erasing), id.chip)
    else if d.task == ReadBios || d.task == ReadSettings then Acted(d'.(op := Completed), b.chip)
    else Acted(d', b.chip)
  }

  predicate Valid(w: World) {
    InStep(w.d, w.port.chip)
  }

  predicate Polls(op: FlashOp) {
    op == Erasing || op == Writing || op == Verifying || op == Reading
  }

  predicate SeenBusy(w: World)
    requires Valid(w)
  {
    Poll(w.port).busy
  }

  /** The driver after a poll that answered "busy". */
  function Waited(d: Driver): Driver {
    if d.op == Erasing then d.(busyCount := d.busyCount + 1) else d
  }

  /** The action of a polling phase once the chip was seen idle. */
  function Act(d: Driver, c: Chip, crc32: seq<Byte> -> Word): (r: Acted)
    requires InStep(d, c) && Polls(d.op)
    ensures InStep(r.d, r.chip)
  {
    if d.op == Erasing then ActErase(d, c)
    else if d.op == Writing then ActWrite(d, c)
    else if d.op == Verifying then ActVerify(d, c)
    else ActRead(d, c, crc32)
  }

  /** No step leaves the buffer or the chip. */
  function Step(w: World): (r: World)
    requires Valid(w)
    ensures Valid(r)
  {
    if w.d.op == Pending then w.(d := Begin(w.d, |w.port.chip.mem|))
    else if Polls(w.d.op) then
      var p := Poll(w.port);
      if p.busy then World(Waited(w.d), p.port, w.crc32)
      else
        var a := Act(w.d, p.port.chip, w.crc32);
        World(a.d, p.port.(chip := a.chip), w.crc32)
    else w
  }

  /** The machine after `n` calls. */
  function Run(w: World, n: nat): (r: World)
    requires Valid(w)
    ensures Valid(r)
  {
    if n == 0 then w else Step(Run(w, n - 1))
  }
}
