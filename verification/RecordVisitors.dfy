/**
 snapshot.rs: the `visit_map` loops.  Each walks the fields once, keeps one slot per known key,
 skips unknown keys, and agrees with the order-free meaning of the record in module Records.
 */
module RecordVisitors {
  import opened Words
  import opened SnapshotMemory
  import opened Records
  import opened RecordOrder

  /** The fault names a key that really is repeated, or really is absent. */
  ghost predicate Honest(fs: seq<Field>, fault: Fault) {
    match fault
    case Duplicate(key) => |ValuesAt(fs, key)| > 1
    case Missing(key) => ValuesAt(fs, key) == []
    case _ => true
  }

  // ----- One field -----

  /**
   What a visitor does with one field and the slot of one key: leave the slot alone when the
   keys differ, refuse a second value, otherwise fill it.
   */
  method FillSlot<T>(fs: seq<Field>, k: nat, ghost keys: set<string>, ghost check: (string, Value) -> Option<Fault>,
                     key: string, dec: Value -> Decoded<T>, slot: Option<T>)
    returns (r: Decoded<Option<T>>)
    requires k < |fs| && Optional(fs[..k], key, dec) == Ok(slot)
    requires key in keys && FirstFault(fs[..k], keys, check) == None
    requires check(key, fs[k].value) == FaultOf(key, dec(fs[k].value))
    ensures r.Ok? ==> Optional(fs[..k + 1], key, dec) == r
    ensures r.Ok? && fs[k].key == key ==> FirstFault(fs[..k + 1], keys, check) == None
    ensures r.Rejected? ==> FirstFault(fs, keys, check) == Some(r.fault)
    ensures r.Rejected? ==> Optional(fs, key, dec).Rejected? && Honest(fs, r.fault)
  {
    OptionalStep(fs, k, key, dec);
    if fs[k].key != key { return Ok(slot); }
    FirstFaultStep(fs, k, keys, check);
    if slot.Some? {
      RepeatedKey(fs, k, key, dec, slot.value);
      FirstFaultStays(fs, k + 1, keys, check);
      return Rejected(Duplicate(key));
    }
    var value := dec(fs[k].value);
    if value.Ok? { return Ok(Some(value.value)); }
    RejectedStays(fs, k + 1, key, dec);
    FirstFaultStays(fs, k + 1, keys, check);
    r := Rejected(BadValue(key, value.fault));
  }

  /** Before the first field every slot is empty and nothing is wrong. */
  lemma NothingRead<T>(fs: seq<Field>, keys: set<string>, check: (string, Value) -> Option<Fault>,
                       key: string, dec: Value -> Decoded<T>)
    ensures FirstFault(fs[..0], keys, check) == None && Optional(fs[..0], key, dec) == Ok(None)
  {
  }

  /** An empty slot at the end means the key is absent. */
  lemma EmptySlot<T>(fs: seq<Field>, key: string, dec: Value -> Decoded<T>)
    requires Optional(fs, key, dec) == Ok(None)
    ensures ValuesAt(fs, key) == []
  {
  }

  // ----- The visitors -----

  lemma DeviceChecks(v: Value)
    ensures DeviceCheck("device_type", v) == FaultOf("device_type", DecodeText(v))
    ensures DeviceCheck("state", v) == FaultOf("state", DecodeBytes(v))
  {
    hide DecodeBytes, DecodeText, FaultOf;
    KeysDiffer();
  }

  method VisitDevice(fs: seq<Field>) returns (r: Decoded<DeviceState>)
    ensures r == DeviceInOrder(fs)
    ensures r.Ok? ==> DeviceFields(fs) == r
    ensures r.Rejected? ==> DeviceFields(fs).Rejected? && Honest(fs, r.fault)
  {
    hide FirstFault, Optional, ValuesAt, FaultOf, DeviceCheck, DecodeBytes, DecodeText;
    var deviceType: Option<string> := None;
    var state: Option<seq<Byte>> := None;
    NothingRead(fs, DEVICE_KEYS, DeviceCheck, "device_type", DecodeText);
    NothingRead(fs, DEVICE_KEYS, DeviceCheck, "state", DecodeBytes);
    for k := 0 to |fs|
      invariant FirstFault(fs[..k], DEVICE_KEYS, DeviceCheck) == None
      invariant Optional(fs[..k], "device_type", DecodeText) == Ok(deviceType)
      invariant Optional(fs[..k], "state", DecodeBytes) == Ok(state)
    {
      DeviceChecks(fs[k].value);
      var r0 := FillSlot(fs, k, DEVICE_KEYS, DeviceCheck, "device_type", DecodeText, deviceType);
      if r0.Rejected? { return Rejected(r0.fault); }
      var r1 := FillSlot(fs, k, DEVICE_KEYS, DeviceCheck, "state", DecodeBytes, state);
      if r1.Rejected? { return Rejected(r1.fault); }
      FirstFaultStep(fs, k, DEVICE_KEYS, DeviceCheck);
      deviceType, state := r0.value, r1.value;
    }
    assert fs[..|fs|] == fs;
    if deviceType.None? {
      EmptySlot(fs, "device_type", DecodeText);
      return Rejected(Missing("device_type"));
    }
    if state.None? {
      EmptySlot(fs, "state", DecodeBytes);
      return Rejected(Missing("state"));
    }
    r := Ok(DeviceState(deviceType.value, state.value));
  }

  lemma RegionChecks(v: Value)
    ensures RegionCheck("guest_addr", v) == FaultOf("guest_addr", DecodeU64(v))
    ensures RegionCheck("size", v) == FaultOf("size", DecodeU64(v))
    ensures RegionCheck("data", v) == FaultOf("data", DecodeByteList(v))
  {
    hide DecodeByteList, DecodeU64, FaultOf;
    KeysDiffer();
  }

  method VisitRegion(fs: seq<Field>) returns (r: Decoded<MemoryRegion>)
    ensures r == RegionInOrder(fs)
    ensures r.Ok? ==> RegionFields(fs) == r
    ensures r.Rejected? ==> RegionFields(fs).Rejected? && Honest(fs, r.fault)
  {
    hide FirstFault, Optional, ValuesAt, FaultOf, RegionCheck, DecodeByteList, DecodeU64;
    var guestAddr: Option<U64> := None;
    var size: Option<U64> := None;
    var data: Option<seq<Byte>> := None;
    NothingRead(fs, REGION_KEYS, RegionCheck, "guest_addr", DecodeU64);
    NothingRead(fs, REGION_KEYS, RegionCheck, "size", DecodeU64);
    NothingRead(fs, REGION_KEYS, RegionCheck, "data", DecodeByteList);
    for k := 0 to |fs|
      invariant FirstFault(fs[..k], REGION_KEYS, RegionCheck) == None
      invariant Optional(fs[..k], "guest_addr", DecodeU64) == Ok(guestAddr)
      invariant Optional(fs[..k], "size", DecodeU64) == Ok(size)
      invariant Optional(fs[..k], "data", DecodeByteList) == Ok(data)
    {
      RegionChecks(fs[k].value);
      var r0 := FillSlot(fs, k, REGION_KEYS, RegionCheck, "guest_addr", DecodeU64, guestAddr);
      if r0.Rejected? { return Rejected(r0.fault); }
      var r1 := FillSlot(fs, k, REGION_KEYS, RegionCheck, "size", DecodeU64, size);
      if r1.Rejected? { return Rejected(r1.fault); }
      var r2 := FillSlot(fs, k, REGION_KEYS, RegionCheck, "data", DecodeByteList, data);
      if r2.Rejected? { return Rejected(r2.fault); }
      FirstFaultStep(fs, k, REGION_KEYS, RegionCheck);
      guestAddr, size, data := r0.value, r1.value, r2.value;
    }
    assert fs[..|fs|] == fs;
    if guestAddr.None? {
      EmptySlot(fs, "guest_addr", DecodeU64);
      return Rejected(Missing("guest_addr"));
    }
    if size.None? {
      EmptySlot(fs, "size", DecodeU64);
      return Rejected(Missing("size"));
    }
    if data.None? {
      EmptySlot(fs, "data", DecodeByteList);
      return Rejected(Missing("data"));
    }
    r := Ok(MemoryRegion(guestAddr.value, size.value, data.value));
  }

  lemma VcpuChecks(v: Value)
    ensures VcpuCheck("id", v) == FaultOf("id", DecodeU32(v))
    ensures VcpuCheck("regs", v) == FaultOf("regs", DecodeRegs(v))
    ensures VcpuCheck("sregs", v) == FaultOf("sregs", DecodeSregs(v))
    ensures VcpuCheck("fpu", v) == FaultOf("fpu", DecodeFpu(v))
    ensures VcpuCheck("msrs", v) == FaultOf("msrs", DecodeMsrs(v))
  {
    hide DecodeFpu, DecodeMsrs, DecodeRegs, DecodeSregs, DecodeU32, FaultOf;
    KeysDiffer();
  }

  method VisitVcpu(fs: seq<Field>) returns (r: Decoded<VcpuState>)
    ensures r == VcpuInOrder(fs)
    ensures r.Ok? ==> VcpuFields(fs) == r
    ensures r.Rejected? ==> VcpuFields(fs).Rejected? && Honest(fs, r.fault)
  {
    hide FirstFault, Optional, ValuesAt, FaultOf, VcpuCheck, DecodeFpu, DecodeMsrs, DecodeRegs, DecodeSregs, DecodeU32;
    var id: Option<U32> := None;
    var regs: Option<RegsImage> := None;
    var sregs: Option<SregsImage> := None;
    var fpu: Option<FpuImage> := None;
    var msrs: Option<seq<Msr>> := None;
    NothingRead(fs, VCPU_KEYS, VcpuCheck, "id", DecodeU32);
    NothingRead(fs, VCPU_KEYS, VcpuCheck, "regs", DecodeRegs);
    NothingRead(fs, VCPU_KEYS, VcpuCheck, "sregs", DecodeSregs);
    NothingRead(fs, VCPU_KEYS, VcpuCheck, "fpu", DecodeFpu);
    NothingRead(fs, VCPU_KEYS, VcpuCheck, "msrs", DecodeMsrs);
    for k := 0 to |fs|
      invariant FirstFault(fs[..k], VCPU_KEYS, VcpuCheck) == None
      invariant Optional(fs[..k], "id", DecodeU32) == Ok(id)
      invariant Optional(fs[..k], "regs", DecodeRegs) == Ok(regs)
      invariant Optional(fs[..k], "sregs", DecodeSregs) == Ok(sregs)
      invariant Optional(fs[..k], "fpu", DecodeFpu) == Ok(fpu)
      invariant Optional(fs[..k], "msrs", DecodeMsrs) == Ok(msrs)
    {
      VcpuChecks(fs[k].value);
      var r0 := FillSlot(fs, k, VCPU_KEYS, VcpuCheck, "id", DecodeU32, id);
      if r0.Rejected? { return Rejected(r0.fault); }
      var r1 := FillSlot(fs, k, VCPU_KEYS, VcpuCheck, "regs", DecodeRegs, regs);
      if r1.Rejected? { return Rejected(r1.fault); }
      var r2 := FillSlot(fs, k, VCPU_KEYS, VcpuCheck, "sregs", DecodeSregs, sregs);
      if r2.Rejected? { return Rejected(r2.fault); }
      var r3 := FillSlot(fs, k, VCPU_KEYS, VcpuCheck, "fpu", DecodeFpu, fpu);
      if r3.Rejected? { return Rejected(r3.fault); }
      var r4 := FillSlot(fs, k, VCPU_KEYS, VcpuCheck, "msrs", DecodeMsrs, msrs);
      if r4.Rejected? { return Rejected(r4.fault); }
      FirstFaultStep(fs, k, VCPU_KEYS, VcpuCheck);
      id, regs, sregs, fpu, msrs := r0.value, r1.value, r2.value, r3.value, r4.value;
    }
    assert fs[..|fs|] == fs;
    if id.None? {
      EmptySlot(fs, "id", DecodeU32);
      return Rejected(Missing("id"));
    }
    if regs.None? {
      EmptySlot(fs, "regs", DecodeRegs);
      return Rejected(Missing("regs"));
    }
    if sregs.None? {
      EmptySlot(fs, "sregs", DecodeSregs);
      return Rejected(Missing("sregs"));
    }
    if fpu.None? {
      EmptySlot(fs, "fpu", DecodeFpu);
      return Rejected(Missing("fpu"));
    }
    r := Ok(VcpuState(id.value, regs.value, sregs.value, fpu.value, msrs.GetOr([])));
  }

  lemma VmChecks(v: Value)
    ensures VmCheck("memory_regions", v) == FaultOf("memory_regions", DecodeRegions(v))
    ensures VmCheck("device_states", v) == FaultOf("device_states", DecodeDevices(v))
    ensures VmCheck("vcpu_states", v) == FaultOf("vcpu_states", DecodeVcpus(v))
  {
    hide DecodeDevices, DecodeRegions, DecodeVcpus, FaultOf;
    KeysDiffer();
  }

  method VisitVm(fs: seq<Field>) returns (r: Decoded<VmState>)
    ensures r == VmInOrder(fs)
    ensures r.Ok? ==> VmFields(fs) == r
    ensures r.Rejected? ==> VmFields(fs).Rejected? && Honest(fs, r.fault)
  {
    hide FirstFault, Optional, ValuesAt, FaultOf, VmCheck, DecodeDevices, DecodeRegions, DecodeVcpus;
    var regions: Option<seq<MemoryRegion>> := None;
    var devices: Option<seq<DeviceState>> := None;
    var vcpus: Option<seq<VcpuState>> := None;
    NothingRead(fs, VM_KEYS, VmCheck, "memory_regions", DecodeRegions);
    NothingRead(fs, VM_KEYS, VmCheck, "device_states", DecodeDevices);
    NothingRead(fs, VM_KEYS, VmCheck, "vcpu_states", DecodeVcpus);
    for k := 0 to |fs|
      invariant FirstFault(fs[..k], VM_KEYS, VmCheck) == None
      invariant Optional(fs[..k], "memory_regions", DecodeRegions) == Ok(regions)
      invariant Optional(fs[..k], "device_states", DecodeDevices) == Ok(devices)
      invariant Optional(fs[..k], "vcpu_states", DecodeVcpus) == Ok(vcpus)
    {
      VmChecks(fs[k].value);
      var r0 := FillSlot(fs, k, VM_KEYS, VmCheck, "memory_regions", DecodeRegions, regions);
      if r0.Rejected? { return Rejected(r0.fault); }
      var r1 := FillSlot(fs, k, VM_KEYS, VmCheck, "device_states", DecodeDevices, devices);
      if r1.Rejected? { return Rejected(r1.fault); }
      var r2 := FillSlot(fs, k, VM_KEYS, VmCheck, "vcpu_states", DecodeVcpus, vcpus);
      if r2.Rejected? { return Rejected(r2.fault); }
      FirstFaultStep(fs, k, VM_KEYS, VmCheck);
      regions, devices, vcpus := r0.value, r1.value, r2.value;
    }
    assert fs[..|fs|] == fs;
    if regions.None? {
      EmptySlot(fs, "memory_regions", DecodeRegions);
      return Rejected(Missing("memory_regions"));
    }
    r := Ok(VmState(regions.value, vcpus.GetOr([]), devices.GetOr([])));
  }

  // ----- The general-purpose registers, which take the last duplicate -----

  const REGISTERS: set<string> := {
    "rax", "rbx", "rcx", "rdx", "rsi", "rdi", "rsp", "rbp", "r8", "r9",
    "r10", "r11", "r12", "r13", "r14", "r15", "rip", "rflags"
  }

  /** The eighteen registers of the structure, by name. */
  lemma RegisterNames(name: string)
    ensures name in REGISTERS
       <==> || name == "rax" || name == "rbx" || name == "rcx" || name == "rdx" || name == "rsi" || name == "rdi"
            || name == "rsp" || name == "rbp" || name == "r8" || name == "r9" || name == "r10" || name == "r11"
            || name == "r12" || name == "r13" || name == "r14" || name == "r15" || name == "rip" || name == "rflags"
  {
  }

  /** A register takes the last value given for it, and is zero when none is. */
  function LastNumber(fs: seq<Field>, key: string): (n: U64) {
    var vs := ValuesAt(fs, key);
    if vs == [] then 0
    else
      var r := DecodeU64(vs[|vs| - 1]);
      if r.Ok? then r.value else 0
  }

  lemma LastNumberStep(fs: seq<Field>, k: nat, key: string)
    requires k < |fs|
    ensures fs[k].key != key ==> LastNumber(fs[..k + 1], key) == LastNumber(fs[..k], key)
    ensures fs[k].key == key && DecodeU64(fs[k].value).Ok? ==>
              LastNumber(fs[..k + 1], key) == DecodeU64(fs[k].value).value
  {
    assert fs[..k + 1][..k] == fs[..k];
  }

  method VisitKvmRegs(fs: seq<Field>) returns (ok: bool, regs: map<string, U64>)
    ensures ok <==> forall f :: f in fs && f.key in REGISTERS ==> DecodeU64(f.value).Ok?
    ensures ok ==> regs.Keys == REGISTERS && forall key :: key in REGISTERS ==> regs[key] == LastNumber(fs, key)
  {
    ok, regs := CollectLast(fs, REGISTERS);
  }

  method CollectLast(fs: seq<Field>, names: set<string>) returns (ok: bool, regs: map<string, U64>)
    ensures ok <==> forall f :: f in fs && f.key in names ==> DecodeU64(f.value).Ok?
    ensures ok ==> regs.Keys == names && forall key :: key in names ==> regs[key] == LastNumber(fs, key)
  {
    regs := map key | key in names :: 0;
    for k := 0 to |fs|
      invariant regs.Keys == names
      invariant forall f :: f in fs[..k] && f.key in names ==> DecodeU64(f.value).Ok?
      invariant forall key :: key in names ==> regs[key] == LastNumber(fs[..k], key)
    {
      var f := fs[k];
      forall key {
        LastNumberStep(fs, k, key);
      }
      if f.key in names {
        var value := DecodeU64(f.value);
        if value.Rejected? {
          assert f in fs;
          return false, regs;
        }
        regs := regs[f.key := value.value];
      }
    }
    assert fs[..|fs|] == fs;
    ok := true;
  }
}
