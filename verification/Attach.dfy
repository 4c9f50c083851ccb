/** vm.rs: attaching devices, their interrupt numbers and windows, and the dispatch of MMIO accesses. */
module Attach {
  import opened Words
  import opened MemoryLayout
  import opened Mmio

  datatype Kind = ConsoleKind | BlockKind | NetKind | FsKind

  /** The place of a device in the kernel command line, counted from 0. */
  function Place(kind: Kind): nat {
    match kind
    case ConsoleKind => 0
    case BlockKind => 1
    case NetKind => 2
    case FsKind => 3
  }

  const WINDOW: nat := 0x1000
  const FIRST_IRQ: nat := 5

  function Base(kind: Kind): nat {
    WINDOW * (Place(kind) + 1)
  }

  /** A device in the list, with the interrupt it was given. */
  datatype Attached = Attached(kind: Kind, irq: U32) {
    predicate Claims(addr: nat) {
      Base(kind) <= addr < Base(kind) + WINDOW
    }
  }

  /** A call of an `add_virtio_*` method; works says whether creating the device succeeded. */
  datatype Attempt = Attempt(kind: Kind, works: bool)

  datatype Bus = Bus(nextIrq: U32, devices: seq<Attached>)

  /** The interrupt is spent before the device is created, and stays spent when that fails. */
  function AttachOne(bus: Bus, a: Attempt): Bus {
    Bus((bus.nextIrq + 1) % U32_LIMIT, if a.works then bus.devices + [Attached(a.kind, bus.nextIrq)] else bus.devices)
  }

  function AttachAll(attempts: seq<Attempt>): (bus: Bus) {
    if attempts == [] then Bus(FIRST_IRQ, [])
    else AttachOne(AttachAll(attempts[..|attempts| - 1]), attempts[|attempts| - 1])
  }

  predicate Holds(d: VirtioMmioDevice, addr: nat) {
    d.baseAddr <= addr < d.baseAddr + d.size
  }

  /** The device list the dispatch loops walk is that of the attachments, each at the base of its kind. */
  predicate Wired(devices: seq<VirtioMmioDevice>, attached: seq<Attached>) {
    && |devices| == |attached|
    && (forall i :: 0 <= i < |devices| ==> devices[i].baseAddr == Base(attached[i].kind) && devices[i].size == WINDOW)
    && (forall i, j :: 0 <= i < j < |devices| ==> devices[i] != devices[j])
  }

  class VirtualMachine {
    var nextIrq: U32
    var devices: seq<VirtioMmioDevice>
    var attached: seq<Attached>

    predicate Valid()
      reads this
    {
      Wired(devices, attached)
    }

    constructor ()
      ensures Valid() && nextIrq == FIRST_IRQ && devices == [] && attached == []
    {
      nextIrq, devices, attached := FIRST_IRQ, [], [];
    }

    method AllocateIrq() returns (irq: U32)
      modifies this`nextIrq
      ensures irq == old(nextIrq) && nextIrq == (old(nextIrq) + 1) % U32_LIMIT
    {
      irq := nextIrq;
      nextIrq := (nextIrq + 1) % U32_LIMIT;
    }

    /** Any of the `add_virtio_*` methods; made is the device, unless creating it failed. */
    method AddDevice(kind: Kind, made: Option<Device>) returns (ok: bool)
      requires Valid()
      modifies this
      ensures Valid() && ok == made.Some?
      ensures Bus(nextIrq, attached) == AttachOne(Bus(old(nextIrq), old(attached)), Attempt(kind, made.Some?))
      ensures old(devices) <= devices
      ensures ok ==> |devices| > 0 && fresh(devices[|devices| - 1]) && devices[|devices| - 1].device == made.value
    {
      var irq := AllocateIrq();
      if made.None? { return false; }
      var wrapped := new VirtioMmioDevice(made.value, Base(kind));
      devices, attached := devices + [wrapped], attached + [Attached(kind, irq)];
      ok := true;
    }
  }

  // ----- Interrupts -----

  predicate StrictlyIncreasing(devices: seq<Attached>) {
    forall i, j :: 0 <= i < j < |devices| ==> devices[i].irq < devices[j].irq
  }

  /** Over any attachments, short of 2^32 of them, interrupts start at 5 and strictly increase. */
  lemma {:induction false} IrqsIncrease(attempts: seq<Attempt>)
    requires FIRST_IRQ + |attempts| < U32_LIMIT
    ensures var bus := AttachAll(attempts);
            && bus.nextIrq == FIRST_IRQ + |attempts|
            && |bus.devices| <= |attempts|
            && StrictlyIncreasing(bus.devices)
            && (forall i :: 0 <= i < |bus.devices| ==> FIRST_IRQ <= bus.devices[i].irq < bus.nextIrq)
  {
    if attempts == [] {
    } else {
      IrqsIncrease(attempts[..|attempts| - 1]);
    }
  }

  /** Attempt i had the interrupt 5 + i to give, and its device is there with it if creating it worked. */
  predicate Yields(attempts: seq<Attempt>, i: nat, d: Attached) {
    i < |attempts| && attempts[i].works && d.kind == attempts[i].kind && d.irq == FIRST_IRQ + i
  }

  /** The devices in the list are exactly those of the attempts that worked. */
  lemma {:induction false} DevicesOfAttempts(attempts: seq<Attempt>)
    requires FIRST_IRQ + |attempts| < U32_LIMIT
    ensures forall d :: d in AttachAll(attempts).devices <==> exists i: nat :: Yields(attempts, i, d)
  {
    if attempts == [] {
    } else {
      var last := |attempts| - 1;
      var before := attempts[..last];
      DevicesOfAttempts(before);
      IrqsIncrease(before);
      forall d ensures d in AttachAll(attempts).devices <==> exists i: nat :: Yields(attempts, i, d) {
        assert forall i: nat :: i < last ==> (Yields(attempts, i, d) <==> Yields(before, i, d));
        assert Yields(attempts, last, d)
          <==> attempts[last].works && d == Attached(attempts[last].kind, FIRST_IRQ + last);
      }
    }
  }

  /** The interrupt the kernel command line announces for a device. */
  function Announced(kind: Kind): nat {
    FIRST_IRQ + Place(kind)
  }

  /**
   The fixed kernel command line announces console, block, net and fs with interrupts 5 to 8.
   Every device has the interrupt announced for it if and only if each attachment that worked
   was made in its device's place in that order, counting the attachments that failed.
   */
  lemma CommandLineIsRightExactly(attempts: seq<Attempt>)
    requires FIRST_IRQ + |attempts| < U32_LIMIT
    ensures (forall d :: d in AttachAll(attempts).devices ==> d.irq == Announced(d.kind))
       <==> forall i :: 0 <= i < |attempts| && attempts[i].works ==> Place(attempts[i].kind) == i
  {
    DevicesOfAttempts(attempts);
    forall i | 0 <= i < |attempts| && attempts[i].works
      ensures Attached(attempts[i].kind, FIRST_IRQ + i) in AttachAll(attempts).devices
    {
      assert Yields(attempts, i, Attached(attempts[i].kind, FIRST_IRQ + i));
    }
  }

  /** The numbers: console, block, net and fs have interrupts 5 to 8 and windows of 0x1000 bytes from 0x1000 on. */
  lemma AnnouncedNumbers(irq: U32, addr: nat)
    ensures Announced(ConsoleKind) == 5 && Announced(BlockKind) == 6
    ensures Announced(NetKind) == 7 && Announced(FsKind) == 8
    ensures Attached(ConsoleKind, irq).Claims(addr) <==> 0x1000 <= addr < 0x2000
    ensures Attached(BlockKind, irq).Claims(addr) <==> 0x2000 <= addr < 0x3000
    ensures Attached(NetKind, irq).Claims(addr) <==> 0x3000 <= addr < 0x4000
    ensures Attached(FsKind, irq).Claims(addr) <==> 0x4000 <= addr < 0x5000
  {
  }

  /** The first device attached gets interrupt 5, the next 6, and so on. */
  lemma FirstInterrupts(a: Kind, b: Kind)
    ensures AttachAll([Attempt(a, true), Attempt(b, true)]).devices == [Attached(a, 5), Attached(b, 6)]
  {
    var one, both := [Attempt(a, true)], [Attempt(a, true), Attempt(b, true)];
    assert one[..0] == [] && both[..1] == one;
    assert AttachAll([]) == Bus(5, []);
    assert AttachAll(one) == Bus(6, [Attached(a, 5)]);
  }

  // ----- Windows -----

  /** Two devices claim a common address exactly when they are of one kind, and then claim the same window. */
  lemma WindowsMeetOnlyWhole(a: Attached, b: Attached)
    ensures (exists addr: nat :: a.Claims(addr) && b.Claims(addr)) <==> a.kind == b.kind
  {
    assert a.Claims(Base(a.kind));
    assert a.kind != b.kind ==> Place(a.kind) != Place(b.kind);
  }

  predicate OnePerKind(devices: seq<Attached>) {
    forall i, j :: 0 <= i < j < |devices| ==> devices[i].kind != devices[j].kind
  }

  function Receivers(devices: seq<Attached>, addr: nat): set<nat> {
    set i: nat | i < |devices| && devices[i].Claims(addr)
  }

  /** With one device per kind an access reaches at most one; with two of a kind some access reaches both. */
  lemma AtMostOneReceiver(devices: seq<Attached>)
    ensures OnePerKind(devices) <==> forall addr: nat :: |Receivers(devices, addr)| <= 1
  {
    if OnePerKind(devices) {
      forall addr: nat
        ensures |Receivers(devices, addr)| <= 1
      {
        forall i, j | i in Receivers(devices, addr) && j in Receivers(devices, addr)
          ensures i == j
        {
          WindowsMeetOnlyWhole(devices[i], devices[j]);
        }
        AtMostOneElement(Receivers(devices, addr));
      }
    } else {
      var i, j :| 0 <= i < j < |devices| && devices[i].kind == devices[j].kind;
      var both := Receivers(devices, Base(devices[i].kind));
      assert i in both && j in both;
      assert {i, j} <= both;
      SubsetSize({i, j}, both);
    }
  }

  lemma AtMostOneElement(s: set<nat>)
    requires forall i, j :: i in s && j in s ==> i == j
    ensures |s| <= 1
  {
    if s != {} {
      var x :| x in s;
      assert s == {x};
    }
  }

  lemma SubsetSize(s: set<nat>, t: set<nat>)
    requires s <= t
    ensures |s| <= |t|
  {
    assert t == s + (t - s);
  }

  /**
   KVM reports an access as MMIO only outside guest RAM.  The RAM starts at address 0, so some
   address of a device's window is reported if and only if the memory ends below the window's
   end.  With the built-in 128 MB no device can be reached.
   */
  lemma WindowReachableExactly(kind: Kind, irq: U32, memorySize: nat)
    requires 0 < memorySize
    ensures (exists addr: nat :: Attached(kind, irq).Claims(addr) && FindRegion(Layout(memorySize), addr).None?)
       <==> memorySize < Base(kind) + WINDOW
  {
    var device, last := Attached(kind, irq), Base(kind) + WINDOW - 1;
    LowMemory(memorySize, last);
    assert device.Claims(last);
    if memorySize >= Base(kind) + WINDOW {
      forall addr: nat | device.Claims(addr)
        ensures FindRegion(Layout(memorySize), addr).Some?
      {
        LowMemory(memorySize, addr);
      }
    }
  }

  /** Below the gap an address is RAM exactly when it is below the memory size. */
  lemma LowMemory(memorySize: nat, addr: nat)
    requires 0 < memorySize && addr < GAP_START
    ensures FindRegion(Layout(memorySize), addr).Some? <==> addr < memorySize
  {
    var layout := Layout(memorySize);
    if |layout| == 2 {
      assert layout[1..] == [layout[1]];
    } else {
      assert layout[1..] == [];
    }
  }

  // ----- Dispatch -----

  lemma HoldsExactly(devices: seq<VirtioMmioDevice>, attached: seq<Attached>, i: nat, addr: nat)
    requires Wired(devices, attached) && i < |devices|
    ensures Holds(devices[i], addr) <==> attached[i].Claims(addr)
  {
  }

  predicate OnlyReceiver(devices: seq<VirtioMmioDevice>, i: nat, addr: nat) {
    && i < |devices| && Holds(devices[i], addr)
    && forall j :: 0 <= j < |devices| && j != i ==> !Holds(devices[j], addr)
  }

  /** In the list the dispatch loops walk, whoever holds an address is alone in it exactly when no kind comes twice. */
  lemma DispatchIsUnambiguousExactly(devices: seq<VirtioMmioDevice>, attached: seq<Attached>)
    requires Wired(devices, attached)
    ensures OnePerKind(attached)
       <==> forall i: nat, addr: nat :: i < |devices| && Holds(devices[i], addr) ==> OnlyReceiver(devices, i, addr)
  {
    if OnePerKind(attached) {
      forall i: nat, addr: nat | i < |devices| && Holds(devices[i], addr)
        ensures OnlyReceiver(devices, i, addr)
      {
        forall j | 0 <= j < |devices| && j != i
          ensures !Holds(devices[j], addr)
        {
          HoldsExactly(devices, attached, i, addr);
          HoldsExactly(devices, attached, j, addr);
          WindowsMeetOnlyWhole(attached[i], attached[j]);
        }
      }
    } else {
      var i, j :| 0 <= i < j < |attached| && attached[i].kind == attached[j].kind;
      var addr := Base(attached[i].kind);
      HoldsExactly(devices, attached, i, addr);
      HoldsExactly(devices, attached, j, addr);
      assert Holds(devices[i], addr) && !OnlyReceiver(devices, i, addr);
    }
  }

  /** The write loop of a vCPU thread: every device whose window holds the address gets the write. */
  method DispatchWrite(devices: seq<VirtioMmioDevice>, addr: nat, data: seq<Byte>)
    requires forall i, j :: 0 <= i < j < |devices| ==> devices[i] != devices[j]
    modifies devices
    ensures forall d :: d in devices && !Holds(d, addr) ==>
              d.queueSel == old(d.queueSel) && d.notified == old(d.notified)
    ensures forall d :: d in devices && Holds(d, addr) ==>
              && d.queueSel == Select(old(d.queueSel), addr - d.baseAddr, data)
              && d.notified == old(d.notified) + (if addr - d.baseAddr == 0x50 then [Written(data)] else [])
  {
    hide Select, Written;
    for k := 0 to |devices|
      invariant forall i :: 0 <= i < |devices| && (i >= k || !Holds(devices[i], addr)) ==>
                  devices[i].queueSel == old(devices[i].queueSel) && devices[i].notified == old(devices[i].notified)
      invariant forall i :: 0 <= i < k && Holds(devices[i], addr) ==>
                  && devices[i].queueSel == Select(old(devices[i].queueSel), addr - devices[i].baseAddr, data)
                  && devices[i].notified == old(devices[i].notified)
                     + (if addr - devices[i].baseAddr == 0x50 then [Written(data)] else [])
    {
      var dev := devices[k];
      if dev.baseAddr <= addr < dev.baseAddr + dev.size {
        dev.MmioWrite(addr - dev.baseAddr, data);
      }
    }
  }

  /** What device d puts at the front of an n-byte buffer when it is asked for addr. */
  function Answer(d: VirtioMmioDevice, addr: nat, n: nat): (s: seq<Byte>)
    requires Holds(d, addr)
    reads d
    ensures |s| <= n
  {
    Transferred(d.device, d.queueSel, addr - d.baseAddr, n)
  }

  /** A buffer after every device that holds the address has answered, in the order of the list. */
  function Answered(devices: seq<VirtioMmioDevice>, addr: nat, data: seq<Byte>): (r: seq<Byte>)
    reads devices
    ensures |r| == |data|
  {
    if devices == [] then data
    else
      var before, last := Answered(devices[..|devices| - 1], addr, data), devices[|devices| - 1];
      if Holds(last, addr) then Overwritten(before, Answer(last, addr, |data|)) else before
  }

  /** The read loop: every device whose window holds the address answers into the one buffer. */
  method DispatchRead(devices: seq<VirtioMmioDevice>, addr: nat, data: array<Byte>)
    modifies data
    ensures data[..] == Answered(devices, addr, old(data[..]))
  {
    hide Transferred, Overwritten;
    for k := 0 to |devices|
      invariant data[..] == Answered(devices[..k], addr, old(data[..]))
    {
      var dev := devices[k];
      assert devices[..k + 1][..k] == devices[..k];
      if dev.baseAddr <= addr < dev.baseAddr + dev.size {
        var _ := dev.MmioRead(addr - dev.baseAddr, data);
      }
    }
    assert devices[..|devices|] == devices;
  }

  /** Device i holds the address and answers with more than j bytes. */
  predicate AnswersByte(devices: seq<VirtioMmioDevice>, i: nat, addr: nat, n: nat, j: nat)
    reads devices
  {
    i < |devices| && Holds(devices[i], addr) && j < |Answer(devices[i], addr, n)|
  }

  /** However many devices hold the address, each byte of the buffer comes from the last that answered for it. */
  lemma {:induction false} LastAnswerStays(devices: seq<VirtioMmioDevice>, addr: nat, data: seq<Byte>, j: nat, i: nat)
    requires j < |data| && AnswersByte(devices, i, addr, |data|, j)
    requires forall k: nat :: i < k < |devices| ==> !AnswersByte(devices, k, addr, |data|, j)
    ensures Answered(devices, addr, data)[j] == Answer(devices[i], addr, |data|)[j]
  {
    hide Transferred;
    var n := |devices| - 1;
    if i == n {
    } else {
      var before := devices[..n];
      assert forall k: nat :: k < n ==>
               (AnswersByte(devices, k, addr, |data|, j) <==> AnswersByte(before, k, addr, |data|, j));
      LastAnswerStays(before, addr, data, j, i);
      assert !AnswersByte(devices, n, addr, |data|, j);
    }
  }

  /** A byte no device answers for keeps its value. */
  lemma {:induction false} UnansweredByteStays(devices: seq<VirtioMmioDevice>, addr: nat, data: seq<Byte>, j: nat)
    requires j < |data|
    requires forall k: nat :: k < |devices| ==> !AnswersByte(devices, k, addr, |data|, j)
    ensures Answered(devices, addr, data)[j] == data[j]
  {
    hide Transferred;
    if devices == [] {
    } else {
      var n := |devices| - 1;
      var before := devices[..n];
      assert forall k: nat :: k < n ==>
               (AnswersByte(devices, k, addr, |data|, j) <==> AnswersByte(before, k, addr, |data|, j));
      UnansweredByteStays(before, addr, data, j);
      assert !AnswersByte(devices, n, addr, |data|, j);
    }
  }

  /** With a single receiver the buffer holds its answer; with none it is untouched. */
  lemma {:induction false} SingleAnswer(devices: seq<VirtioMmioDevice>, addr: nat, data: seq<Byte>)
    ensures (forall i :: 0 <= i < |devices| ==> !Holds(devices[i], addr)) ==> Answered(devices, addr, data) == data
    ensures forall i: nat :: OnlyReceiver(devices, i, addr) ==>
              Answered(devices, addr, data) == Overwritten(data, Answer(devices[i], addr, |data|))
  {
    hide Transferred, Overwritten;
    if devices == [] {
    } else {
      var n := |devices| - 1;
      var before := devices[..n];
      SingleAnswer(before, addr, data);
      assert forall i: nat :: i < n && OnlyReceiver(devices, i, addr) ==> OnlyReceiver(before, i, addr);
    }
  }
}
