/** virtio/mmio.rs: the register window of a virtio-mmio device, and the configuration spaces behind it. */
module Mmio {
  import opened Words
  import opened GuestMemory

  /** A configuration space: bytes at fixed offsets, or (virtio-fs) zeros everywhere. */
  datatype ConfigSpace = Bytes(image: seq<Byte>) | ZeroFill

  /** What the transport asks of a device. */
  datatype Device = Device(
    deviceType: U32, features: U64, queues: seq<U16>, interruptStatus: U32, config: ConfigSpace)

  const QUEUE_SEL: nat := 0x30
  const QUEUE_NUM_MAX: nat := 0x34
  const CONFIG: nat := 0x100

  // ----- Registers -----

  function QueueSize(queues: seq<U16>, sel: U32): U32 {
    if sel < |queues| then queues[sel] else 0
  }

  /** The value of the register at an offset below 0x100; unhandled offsets read as 0. */
  function Register(dev: Device, sel: U32, offset: nat): U32 {
    if offset == 0x00 then 0x74726976
    else if offset == 0x04 then 1
    else if offset == 0x08 then dev.deviceType
    else if offset == 0x0c then 0x4d564f4d
    else if offset == 0x10 then dev.features % U32_LIMIT
    else if offset == 0x14 then dev.features / U32_LIMIT
    else if offset == QUEUE_NUM_MAX then QueueSize(dev.queues, sel)
    else if offset == 0x44 then 1
    else if offset == 0x60 then dev.interruptStatus
    else 0
  }

  /** The bytes a read of n bytes transfers from image at offset: as many as there are. */
  function Window(image: seq<Byte>, offset: nat, n: nat): (s: seq<Byte>)
    ensures |s| <= n
  {
    if offset >= |image| then []
    else image[offset..if offset + n <= |image| then offset + n else |image|]
  }

  /** A buffer after its front is overwritten. */
  function Overwritten(data: seq<Byte>, front: seq<Byte>): (r: seq<Byte>)
    requires |front| <= |data|
    ensures |r| == |data|
  {
    front + data[|front|..]
  }

  /** The bytes a read at offset puts at the front of an n-byte buffer. */
  function Transferred(dev: Device, sel: U32, offset: nat, n: nat): (s: seq<Byte>)
    ensures |s| <= n
  {
    if offset >= CONFIG then
      match dev.config
      case Bytes(image) => Window(image, offset - CONFIG, n)
      case ZeroFill => Zeros(n)
    else Window(LeBytes(Register(dev, sel, offset), 4), 0, n)
  }

  predicate ReadSucceeds(dev: Device, offset: nat) {
    offset >= CONFIG && dev.config.Bytes? ==> offset - CONFIG < |dev.config.image|
  }

  /** A register write: up to four bytes, little-endian, zero-extended. */
  function Written(data: seq<Byte>): U32 {
    WordSizes();
    LeValue(Window(data, 0, 4) + Zeros(4 - |Window(data, 0, 4)|))
  }

  function Select(sel: U32, offset: nat, data: seq<Byte>): U32 {
    if offset == QUEUE_SEL then Written(data) else sel
  }

  class VirtioMmioDevice {
    const device: Device
    const baseAddr: U64
    const size: nat
    var queueSel: U32
    var notified: seq<U32>

    constructor (device: Device, baseAddr: U64)
      ensures this.device == device && this.baseAddr == baseAddr && size == 0x1000
      ensures queueSel == 0 && notified == []
    {
      this.device, this.baseAddr, size, queueSel, notified := device, baseAddr, 0x1000, 0, [];
    }

    method MmioRead(offset: nat, data: array<Byte>) returns (ok: bool)
      modifies data
      ensures ok == ReadSucceeds(device, offset)
      ensures data[..] == Overwritten(old(data[..]), Transferred(device, queueSel, offset, data.Length))
    {
      var front := Transferred(device, queueSel, offset, data.Length);
      for i := 0 to |front|
        invariant data[..i] == front[..i] && data[i..] == old(data[i..])
      {
        data[i] := front[i];
      }
      ok := ReadSucceeds(device, offset);
    }

    /** notified records the queues the device was told to process. */
    method MmioWrite(offset: nat, data: seq<Byte>)
      modifies this
      ensures queueSel == Select(old(queueSel), offset, data)
      ensures queueSel == if offset == 0x30 then Written(data) else old(queueSel)
      ensures notified == if offset == 0x50 then old(notified) + [Written(data)] else old(notified)
    {
      if offset >= CONFIG { return; }
      var val := Written(data);
      if offset == QUEUE_SEL {
        queueSel := val;
      } else if offset == 0x50 {
        notified := notified + [val];
      }
    }
  }

  // ----- Access sequences -----

  datatype Access = Read(offset: nat, n: nat) | Write(offset: nat, data: seq<Byte>)

  function SelAfter(sel: U32, accesses: seq<Access>): U32
    decreases |accesses|
  {
    if accesses == [] then sel
    else SelAfter(if accesses[0].Write? then Select(sel, accesses[0].offset, accesses[0].data) else sel, accesses[1..])
  }

  /** Access k is the last write to QueueSel. */
  predicate LastSelect(accesses: seq<Access>, k: nat) {
    && k < |accesses| && accesses[k].Write? && accesses[k].offset == QUEUE_SEL
    && forall j :: k < j < |accesses| && accesses[j].Write? ==> accesses[j].offset != QUEUE_SEL
  }

  predicate NoSelect(accesses: seq<Access>) {
    forall j :: 0 <= j < |accesses| && accesses[j].Write? ==> accesses[j].offset != QUEUE_SEL
  }

  /** A write selects a queue exactly at offset 0x30. */
  lemma SelectOffset(accesses: seq<Access>, k: nat)
    ensures NoSelect(accesses) <==> forall j :: 0 <= j < |accesses| && accesses[j].Write? ==> accesses[j].offset != 0x30
    ensures LastSelect(accesses, k) ==> accesses[k].Write? && accesses[k].offset == 0x30
  {
  }

  lemma {:induction false} NoSelectKeeps(sel: U32, accesses: seq<Access>)
    requires NoSelect(accesses)
    ensures SelAfter(sel, accesses) == sel
    decreases |accesses|
  {
    hide Written;
    if accesses == [] {
    } else {
      NoSelectKeeps(sel, accesses[1..]);
    }
  }

  lemma {:induction false} LastSelectDecides(sel: U32, accesses: seq<Access>, k: nat)
    requires LastSelect(accesses, k)
    ensures SelAfter(sel, accesses) == Written(accesses[k].data)
    decreases |accesses|
  {
    hide Written;
    var first, rest := accesses[0], accesses[1..];
    if k == 0 {
      NoSelectKeeps(Written(first.data), rest);
    } else {
      LastSelectDecides(if first.Write? then Select(sel, first.offset, first.data) else sel, rest, k - 1);
    }
  }

  /**
   After any accesses to a fresh device, reading QueueNumMax gives the size of the queue named by
   the last write to QueueSel, and 0 if there is no such queue.
   */
  lemma QueueNumMaxFollowsSelect(dev: Device, accesses: seq<Access>, k: nat)
    requires LastSelect(accesses, k)
    ensures var named := Written(accesses[k].data);
            Register(dev, SelAfter(0, accesses), QUEUE_NUM_MAX)
            == if named < |dev.queues| then dev.queues[named] else 0
  {
    hide Written, SelAfter;
    LastSelectDecides(0, accesses, k);
  }

  /** Without such a write it gives the size of queue 0. */
  lemma QueueNumMaxStartsAtZero(dev: Device, accesses: seq<Access>)
    requires NoSelect(accesses)
    ensures Register(dev, SelAfter(0, accesses), QUEUE_NUM_MAX) == QueueSize(dev.queues, 0)
  {
    hide SelAfter;
    NoSelectKeeps(0, accesses);
  }

  /** The two feature registers together are the feature word. */
  lemma FeatureHalves(dev: Device, sel: U32)
    ensures Register(dev, sel, 0x10) + U32_LIMIT * Register(dev, sel, 0x14) == dev.features
  {
  }

  // ----- What a driver reads and writes -----

  /** A read of n bytes below 0x100 transfers the first n of the four bytes of the register, little-endian. */
  lemma RegisterBytes(dev: Device, sel: U32, offset: nat, n: nat)
    requires offset < 0x100
    ensures |Transferred(dev, sel, offset, 4)| == 4
    ensures Transferred(dev, sel, offset, n) == Transferred(dev, sel, offset, 4)[..if n < 4 then n else 4]
  {
    hide LeBytes, Register;
  }

  /** What four bytes read at an offset spell. */
  function ReadBack(dev: Device, sel: U32, offset: nat): nat {
    LeValue(Transferred(dev, sel, offset, 4))
  }

  /**
   The register map: magic, version 1, device type, vendor, both feature halves, size of the selected
   queue, a queue that says it is ready, interrupt status, and 0 at every other offset below 0x100.
   */
  lemma RegisterMap(dev: Device, sel: U32, offset: nat)
    requires offset < 0x100
    ensures ReadBack(dev, sel, 0x00) == 0x74726976
    ensures ReadBack(dev, sel, 0x04) == 1
    ensures ReadBack(dev, sel, 0x08) == dev.deviceType
    ensures ReadBack(dev, sel, 0x0c) == 0x4d564f4d
    ensures ReadBack(dev, sel, 0x10) == dev.features % 0x1_0000_0000
    ensures ReadBack(dev, sel, 0x14) == dev.features / 0x1_0000_0000
    ensures ReadBack(dev, sel, 0x34) == if sel < |dev.queues| then dev.queues[sel] else 0
    ensures ReadBack(dev, sel, 0x44) == 1
    ensures ReadBack(dev, sel, 0x60) == dev.interruptStatus
    ensures offset !in {0x00, 0x04, 0x08, 0x0c, 0x10, 0x14, 0x34, 0x44, 0x60} ==> ReadBack(dev, sel, offset) == 0
  {
    hide LeValue, LeBytes;
    ReadIsRegister(dev, sel, 0x00);
    ReadIsRegister(dev, sel, 0x04);
    ReadIsRegister(dev, sel, 0x08);
    ReadIsRegister(dev, sel, 0x0c);
    ReadIsRegister(dev, sel, 0x10);
    ReadIsRegister(dev, sel, 0x14);
    ReadIsRegister(dev, sel, 0x34);
    ReadIsRegister(dev, sel, 0x44);
    ReadIsRegister(dev, sel, 0x60);
    ReadIsRegister(dev, sel, offset);
  }

  lemma ReadIsRegister(dev: Device, sel: U32, offset: nat)
    requires offset < 0x100
    ensures ReadBack(dev, sel, offset) == Register(dev, sel, offset)
  {
    hide LeValue, LeBytes, Register;
    WordSizes();
    var v := Register(dev, sel, offset);
    assert Window(LeBytes(v, 4), 0, 4) == LeBytes(v, 4);
    LeRoundTrip(v, 4);
  }

  /** The four bytes at offset 0 are the letters "virt". */
  lemma MagicBytes(dev: Device, sel: U32)
    ensures Transferred(dev, sel, 0, 4) == [0x76, 0x69, 0x72, 0x74]
  {
    hide LeBytes, LeValue;
    RegisterMap(dev, sel, 0);
    RegisterBytes(dev, sel, 0, 4);
    var s := Transferred(dev, sel, 0, 4);
    assert s == [s[0], s[1], s[2], s[3]];
    WordOfFour(s[0], s[1], s[2], s[3]);
  }

  /** A write carries the number its bytes spell; a short one is filled up with zeros, a long one cut to four bytes. */
  lemma WrittenNumber(data: seq<Byte>)
    ensures |data| <= 4 ==> Written(data) == LeValue(data)
    ensures |data| > 4 ==> Written(data) == LeValue(data[..4])
  {
    hide LeValue, Zeros, Pow256, LeBytes;
    var front := Window(data, 0, 4);
    assert front == if |data| <= 4 then data else data[..4];
    PaddedNumber(front, 4 - |front|);
  }

  lemma PaddedNumber(s: seq<Byte>, n: nat)
    ensures LeValue(s + Zeros(n)) == LeValue(s)
  {
    hide LeValue, Zeros, Pow256;
    LeValueConcat(s, Zeros(n));
    ZerosAreZero(n);
    assert Pow256(|s|) * 0 == 0;
  }

  lemma {:induction false} ZerosAreZero(n: nat)
    ensures LeValue(Zeros(n)) == 0
  {
    if n == 0 {
    } else {
      ZerosAreZero(n - 1);
      assert Zeros(n)[1..] == Zeros(n - 1);
    }
  }

  /** Writing the four bytes of a number to QueueSel selects that queue. */
  lemma WrittenWord(v: U32)
    ensures Written(LeBytes(v, 4)) == v
  {
    hide LeBytes, LeValue, Written;
    WordSizes();
    WrittenNumber(LeBytes(v, 4));
    LeRoundTrip(v, 4);
  }

  /** A read fails only in a configuration space, and there exactly when it starts past its end. */
  lemma ReadFailsExactly(dev: Device, offset: nat)
    ensures offset < 0x100 ==> ReadSucceeds(dev, offset)
    ensures dev.config == ZeroFill ==> ReadSucceeds(dev, offset)
    ensures offset >= 0x100 && dev.config.Bytes? ==>
              (ReadSucceeds(dev, offset) <==> offset < 0x100 + |dev.config.image|)
  {
  }

  /** What a read of a configuration space transfers: the bytes there are from its offset on, or zeros throughout. */
  lemma ConfigBytes(dev: Device, sel: U32, offset: nat, n: nat, j: nat)
    requires offset >= 0x100
    ensures dev.config.Bytes? ==>
              var image, s := dev.config.image, Transferred(dev, sel, offset, n);
              && (j < |s| <==> j < n && offset - 0x100 + j < |image|)
              && (j < |s| ==> s[j] == image[offset - 0x100 + j])
    ensures dev.config.ZeroFill? ==> Transferred(dev, sel, offset, n) == Zeros(n)
  {
  }

  // ----- Configuration windows -----

  lemma WindowSplit(image: seq<Byte>, offset: nat, a: nat, b: nat)
    ensures Window(image, offset, a) + Window(image, offset + a, b) == Window(image, offset, a + b)
  {
  }

  lemma EmptyWindow(image: seq<Byte>, offset: nat)
    ensures Window(image, offset, 0) == []
  {
  }

  function Sum(ns: seq<nat>): nat {
    if ns == [] then 0 else ns[0] + Sum(ns[1..])
  }

  /** What consecutive reads of the given lengths transfer. */
  function ReadInTurn(dev: Device, sel: U32, offset: nat, ns: seq<nat>): (s: seq<Byte>)
    decreases |ns|
  {
    if ns == [] then [] else Transferred(dev, sel, offset, ns[0]) + ReadInTurn(dev, sel, offset + ns[0], ns[1..])
  }

  /** However a stretch of configuration space is split into reads, they transfer what one read would. */
  lemma {:induction false} SplitReadsAgree(dev: Device, sel: U32, offset: nat, ns: seq<nat>)
    requires offset >= CONFIG
    ensures ReadInTurn(dev, sel, offset, ns) == Transferred(dev, sel, offset, Sum(ns))
    decreases |ns|
  {
    hide Window;
    if ns == [] {
      if dev.config.Bytes? {
        EmptyWindow(dev.config.image, offset - CONFIG);
      }
    } else {
      SplitReadsAgree(dev, sel, offset + ns[0], ns[1..]);
      if dev.config.Bytes? {
        WindowSplit(dev.config.image, offset - CONFIG, ns[0], Sum(ns[1..]));
      }
    }
  }

  // ----- The block configuration -----

  /** `read_config` of virtio-blk: the packed structure of section 5.2.4 of VIRTIO 1.1. */
  function BlockConfig(diskSize: U64): (image: seq<Byte>) {
    LeBytes(diskSize / 512, 8) + LeBytes(131072, 4) + LeBytes(32, 4)
    + LeBytes(0, 2) + [16, 63] + LeBytes(512, 4)
    + [0, 0] + LeBytes(512, 2) + LeBytes(0, 4)
    + [0] + Zeros(3) + LeBytes(0, 4) + LeBytes(0, 4) + LeBytes(0, 4) + LeBytes(0, 4) + LeBytes(0, 4) + [0] + Zeros(3)
  }

  /** The image is 60 bytes, and the driver reads back the whole sectors of the disk and the geometry. */
  lemma BlockConfigFields(diskSize: U64)
    ensures var image := BlockConfig(diskSize);
            && |image| == 60
            && LeValue(image[0..8]) == diskSize / 512
            && LeValue(image[8..12]) == 131072
            && LeValue(image[12..16]) == 32
            && image[18] == 16 && image[19] == 63
            && LeValue(image[20..24]) == 512
            && LeValue(image[26..28]) == 512
            && (forall x: nat :: x in {16, 17, 24, 25} || 28 <= x < 60 ==> image[x] == 0)
  {
    hide LeBytes, LeValue, Zeros, BlockConfig, BlockConfigRest;
    BlockConfigPieces(diskSize);
    WordSizes();
    LeRoundTrip(diskSize / 512, 8);
    LeRoundTrip(131072, 4);
    LeRoundTrip(32, 4);
    LeRoundTrip(512, 4);
    LeRoundTrip(512, 2);
    RestPieces();
    var image, rest := BlockConfig(diskSize), BlockConfigRest();
    assert forall x: nat :: 16 <= x < 60 ==> image[x] == rest[x - 16];
    assert image[20..24] == rest[4..8] && image[26..28] == rest[10..12];
  }

  /** A piece in front of the rest is found at the front, and the rest behind it. */
  lemma FrontPiece(front: seq<Byte>, rest: seq<Byte>)
    ensures (front + rest)[..|front|] == front && (front + rest)[|front|..] == rest
  {
  }

  /** The part of the image from byte 16 on, whose only fields that are not zero are the geometry and two sizes. */
  function BlockConfigRest(): seq<Byte> {
    LeBytes(0, 2) + [16, 63] + LeBytes(512, 4) + [0, 0] + LeBytes(512, 2) + Zeros(32)
  }

  lemma RestPieces()
    ensures var rest := BlockConfigRest();
            && |rest| == 44 && rest[2] == 16 && rest[3] == 63
            && rest[4..8] == LeBytes(512, 4) && rest[10..12] == LeBytes(512, 2)
            && (forall x: nat :: x in {0, 1, 8, 9} || 12 <= x < 44 ==> rest[x] == 0)
  {
    hide LeBytes, Zeros;
    ZeroWord(2);
    var zeros, size, minIo := LeBytes(0, 2), LeBytes(512, 4), LeBytes(512, 2);
    var a, b := zeros + [16, 63], size + [0, 0];
    var c := minIo + Zeros(32);
    assert |a| == 4 && |b| == 6 && |c| == 34;
    assert BlockConfigRest() == a + b + c;
    assert (a + b + c)[4..8] == size && (a + b + c)[10..12] == minIo;
  }

  /** The zeros at the end of the image are its last fields. */
  lemma BlockConfigEnds(diskSize: U64)
    ensures BlockConfig(diskSize)
         == LeBytes(diskSize / 512, 8) + LeBytes(131072, 4) + LeBytes(32, 4) + BlockConfigRest()
  {
    hide LeBytes, Zeros;
    ZeroWord(4);
    var four := LeBytes(0, 4);
    var tail := four + [0] + Zeros(3) + four + four + four + four + four + [0] + Zeros(3);
    assert tail == Zeros(32);
    var front := LeBytes(diskSize / 512, 8) + LeBytes(131072, 4) + LeBytes(32, 4);
    var middle := LeBytes(0, 2) + [16, 63] + LeBytes(512, 4) + [0, 0] + LeBytes(512, 2);
    assert BlockConfig(diskSize) == front + (middle + tail);
  }

  lemma BlockConfigPieces(diskSize: U64)
    ensures var image := BlockConfig(diskSize);
            && |image| == 60
            && image[0..8] == LeBytes(diskSize / 512, 8) && image[8..12] == LeBytes(131072, 4)
            && image[12..16] == LeBytes(32, 4) && image[16..] == BlockConfigRest()
  {
    hide LeBytes, Zeros, BlockConfig, BlockConfigRest;
    BlockConfigEnds(diskSize);
    RestPieces();
    var capacity, sizeMax, segMax := LeBytes(diskSize / 512, 8), LeBytes(131072, 4), LeBytes(32, 4);
    FrontPiece(capacity + sizeMax + segMax, BlockConfigRest());
    FrontPiece(capacity + sizeMax, segMax);
    FrontPiece(capacity, sizeMax);
  }

  /** Any split of an in-range stretch of the block configuration into reads yields those bytes of the image. */
  lemma BlockConfigReads(dev: Device, diskSize: U64, sel: U32, offset: nat, ns: seq<nat>)
    requires dev.config == Bytes(BlockConfig(diskSize)) && offset + Sum(ns) <= 60
    ensures |BlockConfig(diskSize)| == 60
    ensures ReadInTurn(dev, sel, CONFIG + offset, ns) == BlockConfig(diskSize)[offset..offset + Sum(ns)]
  {
    hide BlockConfig, Sum, ReadInTurn;
    BlockConfigFields(diskSize);
    SplitReadsAgree(dev, sel, CONFIG + offset, ns);
  }
}
