/**
 Updating the OS bank (Flash_XBlastOSBankFlash in drivers/flash/FlashDriver.c):
 the image is checked, and the current settings travel along in it.
 */
module FlashUpdate {
  import opened FlashChip
  import opened FlashDriver
  import opened FlashRuns
  import opened FlashSettings
  import opened FlashTermination
  import opened FlashRequests
  import opened Types

  const NAME_AT: nat := 15
  const HASH_AT: nat := 47

  predicate Named(id: seq<Byte>)
    requires |id| == IDENTIFIER_SIZE
  {
    id[NAME_AT..NAME_AT + |PROG_NAME|] == PROG_NAME
  }

  /** validateOSImage; `md5` is the digest of the first so many bytes. */
  function ValidateOsImage(image: seq<Byte>, md5: (seq<Byte>, nat) -> seq<Byte>): (r: ErrorCode)
    ensures r == FileSizeError <==> |image| != 0x40000
  {
    if |image| != IMAGE_SIZE then FileSizeError
    else
      var id := Identifier(image);
      if !Named(id) then InvalidUpdateFile
      else if id[4] == 2 then
        (if md5(image, LittleEndian(id[11..15])) == id[HASH_AT..] then NoError else Md5Mismatch)
      else if id[4] == 1 then
        (if md5(image, IMAGE_SIZE - SECTOR_SIZE) == id[HASH_AT..] then DowngradeWarning else Md5Mismatch)
      else InvalidUpdateFile
  }

  /** The verdict on an image of the right size, from its last 63 bytes. */
  lemma ValidatesExactly(image: seq<Byte>, md5: (seq<Byte>, nat) -> seq<Byte>, id: seq<Byte>)
    requires |image| == 0x40000 && id == image[0x3FFC1..]
    ensures var r := ValidateOsImage(image, md5);
      var named := id[15..24] == [0x58, 0x42, 0x6C, 0x61, 0x73, 0x74, 0x20, 0x4F, 0x53];
      && (r == InvalidUpdateFile <==> !named || (id[4] != 1 && id[4] != 2))
      && (r == DowngradeWarning <==> named && id[4] == 1 && md5(image, 0x3F000) == id[47..63])
      && (r == NoError <==> named && id[4] == 2 && md5(image, BiosSize(id)) == id[47..63])
      && (r == InvalidUpdateFile || r == DowngradeWarning || r == NoError || r == Md5Mismatch)
  {
    hide LittleEndian, BiosSize, Identifier;
    LastBytes(image);
    SizeField(id);
    assert id[47..] == id[47..63];
  }

  lemma LastBytes(image: seq<Byte>)
    requires |image| == 0x40000
    ensures Identifier(image) == image[0x3FFC1..]
  {
  }

  /** getBiosIdentifierFromBuffer: all bits set unless the buffer holds a named 256KB image. */
  function IdentifierInBuffer(image: seq<Byte>): (id: seq<Byte>)
    ensures |id| == IDENTIFIER_SIZE
  {
    if |image| == IMAGE_SIZE && Named(Identifier(image)) then Identifier(image)
    else seq(IDENTIFIER_SIZE, i => 0xFF)
  }

  /** The settings go where the image that holds them says. */
  lemma BufferOffset(image: seq<Byte>)
    ensures SettingsOffset(IdentifierInBuffer(image)) ==
      if |image| == IMAGE_SIZE then SettingsOffset(Identifier(image)) else 0
  {
    hide LittleEndian;
  }

  /** A job that writes the image to `at`, with the settings that were `held`
      in their place, if the image says where that is. */
  predicate OsJob(w: World, image: seq<Byte>, held: seq<Byte>, at: nat) {
    && BiosStart(w) && |image| == IMAGE_SIZE == w.d.size && w.d.start == at && |held| == |w.d.settings|
    && var off := SettingsOffset(Identifier(image));
       && off <= 3 * BLOCK_SIZE
       && (off == 0 ==> w.d.settings == held && w.d.buffer[..IMAGE_SIZE] == image)
       && (off != 0 ==>
             && Carries(w.d.settings, held, w.crc32)
             && w.d.buffer[..IMAGE_SIZE] == Overwrite(image, off, w.d.settings))
  }

  /** Patching the settings into an accepted image makes such a job. */
  lemma InjectedIsOsJob(w: World, image: seq<Byte>)
    requires BiosReady(w) && |image| == IMAGE_SIZE == w.d.size && w.d.buffer[..IMAGE_SIZE] == image
    ensures var v := w.(d := Inject(w.d, w.crc32, SettingsOffset(Identifier(image))));
      OsJob(v, image, w.d.settings, w.d.start) && BiosReady(v)
  {
    hide SettingsOffset, Identifier, Sealed;
    var off := SettingsOffset(Identifier(image));
    OffsetFits(Identifier(image));
    if off != 0 {
      SealedExactly(Sealed(w.d.settings, w.crc32), w.d.settings, w.crc32);
      var d := Inject(w.d, w.crc32, off);
      assert off % w.d.size == off;
      assert d.buffer[..IMAGE_SIZE] == Overwrite(image, off, d.settings);
    }
  }

  lemma SettingsMissIdentifier(image: seq<Byte>, off: nat, settings: seq<Byte>)
    requires |image| == IMAGE_SIZE && off <= 3 * BLOCK_SIZE && |settings| <= SECTOR_SIZE
    ensures var r := Overwrite(image, off, settings);
      Identifier(r) == Identifier(image) && r[off..off + |settings|] == settings
  {
  }

  lemma WrittenParts(mem: seq<Byte>, image: seq<Byte>, off: nat, settings: seq<Byte>)
    requires |mem| >= IMAGE_SIZE == |image| && off <= 3 * BLOCK_SIZE && |settings| <= SECTOR_SIZE
    requires mem[..IMAGE_SIZE] == Overwrite(image, off, settings)
    ensures Identifier(mem) == Identifier(image) && mem[off..off + |settings|] == settings
  {
    hide Overwrite;
    SettingsMissIdentifier(image, off, settings);
    var r := mem[..IMAGE_SIZE];
    assert mem[off..off + |settings|] == r[off..off + |settings|];
    assert Identifier(mem) == Identifier(r);
  }

  /** What the flash holds after a completed OS update: the image, but for the
      settings that were held before and their CRC. */
  lemma OsUpdateContents(w: World, image: seq<Byte>, held: seq<Byte>, at: nat, n: nat)
    requires OsJob(w, image, held, at) && Run(w, n).d.op == Completed
    ensures var mem, off, body := Run(w, n).port.chip.mem, SettingsOffset(Identifier(image)), |held| - CRC_SIZE;
      && |mem| == |w.port.chip.mem| && at + IMAGE_SIZE <= |mem| && 0 <= body && off + body + 4 <= IMAGE_SIZE
      && (forall i :: 0 <= i < IMAGE_SIZE && (off == 0 || !(off <= i < off + body + 4)) ==> mem[at + i] == image[i])
      && (off != 0 ==> && mem[at + off..at + off + body] == held[..body]
                       && mem[at + off + body..at + off + body + 4] == w.crc32(held[..body]).Bytes())
  {
    hide SettingsOffset, Step, Identifier, Overwrite, PhaseInv;
    BiosWriteCorrect(w, n);
    var mem, off := Run(w, n).port.chip.mem, SettingsOffset(Identifier(image));
    var part := mem[at..at + IMAGE_SIZE];
    OffsetFits(Identifier(image));
    if off == 0 {
      forall i | 0 <= i < IMAGE_SIZE ensures mem[at + i] == image[i] { assert mem[at + i] == part[i]; }
    } else {
      assert part == Overwrite(image, off, w.d.settings);
      UpdatedBytes(mem, at, image, off, w.d.settings, |held| - CRC_SIZE);
    }
  }

  lemma UpdatedBytes(mem: seq<Byte>, at: nat, image: seq<Byte>, off: nat, settings: seq<Byte>, body: nat)
    requires at + IMAGE_SIZE <= |mem| && |image| == IMAGE_SIZE && off + |settings| <= IMAGE_SIZE && body <= |settings|
    requires mem[at..at + IMAGE_SIZE] == Overwrite(image, off, settings)
    ensures mem[at + off..at + off + body] == settings[..body]
    ensures mem[at + off + body..at + off + |settings|] == settings[body..]
    ensures forall i :: 0 <= i < IMAGE_SIZE && !(off <= i < off + |settings|) ==> mem[at + i] == image[i]
  {
    hide Overwrite;
    var part := mem[at..at + IMAGE_SIZE];
    forall i | 0 <= i < IMAGE_SIZE ensures mem[at + i] == Overwrite(image, off, settings)[i] {
      assert mem[at + i] == part[i];
    }
    var here := mem[at + off..at + off + |settings|];
    forall k | 0 <= k < |settings| ensures here[k] == settings[k] {
      assert here[k] == mem[at + (off + k)];
    }
    assert here == settings;
    assert mem[at + off..at + off + body] == here[..body] && mem[at + off + body..at + off + |settings|] == here[body..];
  }

  /** And what it then holds for the load. */
  lemma OsUpdateHolds(w: World, image: seq<Byte>, held: seq<Byte>, n: nat)
    requires OsJob(w, image, held, 0) && SettingsOffset(Identifier(image)) != 0
    requires Run(w, n).d.op == Completed && |held| > CRC_SIZE
    ensures Restores(SettingsInFlash(Run(w, n).port.chip.mem, |w.d.settings|, w.crc32), held, w.crc32)
  {
    hide SettingsOffset, Sealed, Step, Identifier, Overwrite, Accepted, PhaseInv;
    BiosWriteCorrect(w, n);
    var mem := Run(w, n).port.chip.mem;
    assert mem[0..0 + IMAGE_SIZE] == mem[..IMAGE_SIZE];
    WrittenParts(mem, image, SettingsOffset(Identifier(image)), w.d.settings);
    SealedExactly(w.d.settings, held, w.crc32);
    SealedIsAccepted(held, w.crc32);
  }

  /** After a completed OS update a read request ends and loads the settings
      that were held before the update, if they are of the current version. */
  lemma OsUpdateThenLoad(w: World, image: seq<Byte>, held: seq<Byte>, n: nat)
    requires OsJob(w, image, held, 0) && SettingsOffset(Identifier(image)) != 0
    requires Run(w, n).d.op == Completed && |held| > CRC_SIZE
    ensures var v := Run(w, n);
      var r := ReadRequested(v.(d := Freed(v.d)));
      && Progresses(r)
      && (forall m :: !Active(Run(r, m).d.op) ==>
            && Valid(Run(r, m)) && CRC_SIZE < |Run(r, m).d.settings|
            && Restores(Loaded(Run(r, m).d, w.crc32), held, w.crc32))
  {
    hide SettingsOffset, Sealed, Step, Identifier, Overwrite, ReadRequested, Loaded, PhaseInv, SettingsInFlash, OsJob, Progresses,
      Restores;
    OsUpdateHolds(w, image, held, n);
    OsJobStarts(w, image, held);
    CompletedIsIdle(w, n);
    SettingsStay(w, n);
    BiosSettingsStay(w, n);
    var v := Run(w, n);
    RequestLoads(v.(d := Freed(v.d)));
  }

  lemma OsJobStarts(w: World, image: seq<Byte>, held: seq<Byte>)
    requires OsJob(w, image, held, 0)
    ensures BiosStart(w) && |w.d.settings| == |held|
  {
  }

  /** A BIOS job does not touch the settings. */
  lemma {:induction false} BiosSettingsStay(w: World, n: nat)
    requires BiosStart(w)
    ensures Run(w, n).d.settings == w.d.settings
  {
    hide Step, PhaseInv;
    if n > 0 {
      BiosSettingsStay(w, n - 1);
      BiosRun(w, n - 1);
      BiosStepKeepsSettings(Run(w, n - 1));
    }
  }

  lemma BiosStepKeepsSettings(w: World)
    requires Sane(w) && BiosOp(w.d.op)
    ensures Step(w).d.settings == w.d.settings
  {
    hide ActErase, ActRead, ActWrite, ActVerify;
    StepForms(w);
    if w.d.op == Erasing && !SeenBusy(w) { EraseKeepsSettings(w.d, w.port.chip); }
    if (w.d.op == Writing || w.d.op == Verifying) && !SeenBusy(w) { LaterForms(w.d, w.port.chip, w.crc32); }
  }
}
