/** bootloader.rs: the boot sector, two real-mode interrupt handlers and their vectors. */
module Bootloader {
  import opened Words
  import opened GuestMemory
  import opened WriteLog

  const BOOT_SECTOR: nat := 0x7c00
  const BIOS: U32 := 0x1000
  const INT10_HANDLER: seq<Byte> := [0xBA, 0xF8, 0x03, 0xEE, 0xCF]
  const IRET: Byte := 0xCF
  const DUMMY_VECTORS: seq<nat> := [0x13, 0x15, 0x16]

  /** A vector-table entry for a handler in segment 0: offset, then segment, little-endian. */
  function IvtEntry(handler: nat): (s: seq<Byte>)
    ensures |s| == 4
  {
    [handler % 0x100, (handler / 0x100) % 0x100, 0, 0]
  }

  function DummyWrites(vectors: seq<nat>): (ws: seq<Write>)
    ensures |ws| == |vectors|
    ensures forall i :: 0 <= i < |ws| ==> ws[i] == Write(vectors[i] * 4, IvtEntry(BIOS + 0x10))
  {
    if vectors == [] then []
    else [Write(vectors[0] * 4, IvtEntry(BIOS + 0x10))] + DummyWrites(vectors[1..])
  }

  function HandlerWrites(): (ws: seq<Write>) {
    [Write(BIOS, INT10_HANDLER), Write(0x40, IvtEntry(BIOS)), Write(BIOS + 0x10, [IRET])]
  }

  function BiosWrites(vectors: seq<nat>): seq<Write> {
    HandlerWrites() + DummyWrites(vectors)
  }

  function BootloaderWrites(image: seq<Byte>, vectors: seq<nat>): seq<Write> {
    [Write(BOOT_SECTOR, image)] + BiosWrites(vectors)
  }

  method LoadBootloader(ram: Ram, image: seq<Byte>) returns (outcome: Outcome)
    modifies ram
    ensures Report(outcome, ram.bytes) == RunWrites(old(ram.bytes), BootloaderWrites(image, DUMMY_VECTORS))
  {
    RunWritesStep(ram.bytes, Write(BOOT_SECTOR, image), BiosWrites(DUMMY_VECTORS));
    var ok := ram.WriteSlice(image, BOOT_SECTOR);
    if !ok { return Failed; }
    outcome := InstallMinimalBios(ram, DUMMY_VECTORS);
  }

  method InstallMinimalBios(ram: Ram, vectors: seq<nat>) returns (outcome: Outcome)
    modifies ram
    ensures Report(outcome, ram.bytes) == RunWrites(old(ram.bytes), BiosWrites(vectors))
  {
    ghost var dummies := DummyWrites(vectors);
    var int10, ivt, iret := Write(BIOS, INT10_HANDLER), Write(0x40, IvtEntry(BIOS)), Write(BIOS + 0x10, [IRET]);
    assert BiosWrites(vectors) == [int10] + ([ivt] + ([iret] + dummies));
    RunWritesStep(ram.bytes, int10, [ivt] + ([iret] + dummies));
    var ok := ram.WriteSlice(int10.data, int10.addr);
    if !ok { return Failed; }
    RunWritesStep(ram.bytes, ivt, [iret] + dummies);
    ok := ram.WriteSlice(ivt.data, ivt.addr);
    if !ok { return Failed; }
    RunWritesStep(ram.bytes, iret, dummies);
    ok := ram.WriteSlice(iret.data, iret.addr);
    if !ok { return Failed; }
    for k := 0 to |vectors|
      invariant RunWrites(ram.bytes, dummies[k..]) == RunWrites(old(ram.bytes), BiosWrites(vectors))
    {
      SplitFirst(dummies, k);
      RunWritesStep(ram.bytes, dummies[k], dummies[k + 1..]);
      ok := ram.WriteSlice(IvtEntry(BIOS + 0x10), vectors[k] * 4);
      if !ok { return Failed; }
    }
    outcome := Done;
  }
}
