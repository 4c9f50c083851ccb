/**
 snapshot.rs: the snapshot records, their serializers, and what decoding a record means, over
 the map data model of serde (named fields in any order; sequences, numbers, text and bytes).
 */
module Records {
  import opened Words
  import opened GuestMemory
  import opened SnapshotMemory

  // ----- The data model -----

  datatype Field = Field(key: string, value: Value)

  datatype Value =
    | Num(n: nat)
    | Text(s: string)
    | Blob(b: seq<Byte>)
    | List(items: seq<Value>)
    | Record(fields: seq<Field>)

  /**
   Why a value is turned down, from the outermost field inwards.  Crash is the length assertion on
   a register image, a panic in the source.
   */
  datatype Fault =
    | Duplicate(key: string)
    | Missing(key: string)
    | BadValue(key: string, why: Fault)
    | Malformed
    | Crash

  /** Turning the value down this way is a panic, not an error. */
  predicate Panics(f: Fault) {
    match f
    case BadValue(_, why) => Panics(why)
    case Crash => true
    case _ => false
  }

  datatype Decoded<+T> = Ok(value: T) | Rejected(fault: Fault)

  // ----- The records -----

  type RegsImage = s: seq<Byte> | |s| == 144 witness Zeros(144)
  type SregsImage = s: seq<Byte> | |s| == 312 witness Zeros(312)
  type FpuImage = s: seq<Byte> | |s| == 416 witness Zeros(416)

  datatype Msr = Msr(index: U32, reserved: U32, data: U64)
  datatype DeviceState = DeviceState(deviceType: string, state: seq<Byte>)
  datatype VcpuState = VcpuState(id: U32, regs: RegsImage, sregs: SregsImage, fpu: FpuImage, msrs: seq<Msr>)
  datatype VmState = VmState(
    memoryRegions: seq<MemoryRegion>, vcpuStates: seq<VcpuState>, deviceStates: seq<DeviceState>)

  // ----- Serializing -----

  function EncodeAll<T>(xs: seq<T>, enc: T -> Value): (v: Value) {
    List(seq(|xs|, i requires 0 <= i < |xs| => enc(xs[i])))
  }

  function EncodeByte(b: Byte): Value {
    Num(b)
  }

  function EncodeRegion(r: MemoryRegion): Value {
    Record([Field("guest_addr", Num(r.guestAddr)),
            Field("size", Num(r.size)),
            Field("data", EncodeAll(r.data, EncodeByte))])
  }

  function EncodeDevice(d: DeviceState): Value {
    Record([Field("device_type", Text(d.deviceType)), Field("state", Blob(d.state))])
  }

  /** An MSR travels as the pair (index, data). */
  function EncodeMsr(m: Msr): Value {
    List([Num(m.index), Num(m.data)])
  }

  function EncodeVcpu(c: VcpuState): Value {
    Record([Field("id", Num(c.id)),
            Field("regs", Blob(c.regs)),
            Field("sregs", Blob(c.sregs)),
            Field("fpu", Blob(c.fpu)),
            Field("msrs", EncodeAll(c.msrs, EncodeMsr))])
  }

  function EncodeVm(vm: VmState): Value {
    Record([Field("memory_regions", EncodeAll(vm.memoryRegions, EncodeRegion)),
            Field("vcpu_states", EncodeAll(vm.vcpuStates, EncodeVcpu)),
            Field("device_states", EncodeAll(vm.deviceStates, EncodeDevice))])
  }

  // ----- Decoding plain values -----

  function DecodeNum(v: Value, limit: nat): (r: Decoded<nat>)
    ensures r.Ok? ==> r.value < limit
  {
    if v.Num? && v.n < limit then Ok(v.n) else Rejected(Malformed)
  }

  function DecodeU64(v: Value): Decoded<U64> {
    var r := DecodeNum(v, U64_LIMIT);
    if r.Ok? then Ok(r.value) else Rejected(r.fault)
  }

  function DecodeU32(v: Value): Decoded<U32> {
    var r := DecodeNum(v, U32_LIMIT);
    if r.Ok? then Ok(r.value) else Rejected(r.fault)
  }

  function DecodeU8(v: Value): Decoded<Byte> {
    var r := DecodeNum(v, 256);
    if r.Ok? then Ok(r.value) else Rejected(r.fault)
  }

  function DecodeText(v: Value): Decoded<string> {
    if v.Text? then Ok(v.s) else Rejected(Malformed)
  }

  function DecodeAll<T>(items: seq<Value>, dec: Value -> Decoded<T>): (r: Decoded<seq<T>>) {
    if items == [] then Ok([])
    else
      var first := dec(items[0]);
      if first.Rejected? then Rejected(first.fault)
      else
        var rest := DecodeAll(items[1..], dec);
        if rest.Rejected? then rest else Ok([first.value] + rest.value)
  }

  function DecodeVec<T>(v: Value, dec: Value -> Decoded<T>): Decoded<seq<T>> {
    if v.List? then DecodeAll(v.items, dec) else Rejected(Malformed)
  }

  /** A borrowed byte string: only bytes will do. */
  function DecodeBytes(v: Value): Decoded<seq<Byte>> {
    if v.Blob? then Ok(v.b) else Rejected(Malformed)
  }

  /** An owned byte buffer may also come as a list of numbers. */
  function DecodeByteBuf(v: Value): Decoded<seq<Byte>> {
    if v.Blob? then Ok(v.b) else DecodeByteList(v)
  }

  function DecodeImage(v: Value, size: nat): (r: Decoded<seq<Byte>>)
    ensures r.Ok? ==> |r.value| == size
  {
    var r := DecodeByteBuf(v);
    if r.Ok? && |r.value| != size then Rejected(Crash) else r
  }

  function DecodeRegs(v: Value): Decoded<RegsImage> {
    var r := DecodeImage(v, 144);
    if r.Ok? then Ok(r.value) else Rejected(r.fault)
  }

  function DecodeSregs(v: Value): Decoded<SregsImage> {
    var r := DecodeImage(v, 312);
    if r.Ok? then Ok(r.value) else Rejected(r.fault)
  }

  function DecodeFpu(v: Value): Decoded<FpuImage> {
    var r := DecodeImage(v, 416);
    if r.Ok? then Ok(r.value) else Rejected(r.fault)
  }

  /** The reserved field of an MSR does not travel; it comes back as zero. */
  function DecodeMsr(v: Value): Decoded<Msr> {
    if v.List? && |v.items| == 2 then
      var index, data := DecodeU32(v.items[0]), DecodeU64(v.items[1]);
      if index.Rejected? then Rejected(index.fault)
      else if data.Rejected? then Rejected(data.fault)
      else Ok(Msr(index.value, 0, data.value))
    else Rejected(Malformed)
  }

  function DecodeByteList(v: Value): Decoded<seq<Byte>> {
    DecodeVec(v, DecodeU8)
  }

  function DecodeMsrs(v: Value): Decoded<seq<Msr>> {
    DecodeVec(v, DecodeMsr)
  }

  // ----- Decoding records, independently of field order -----

  /** The values given for a key, in order. */
  function ValuesAt(fs: seq<Field>, key: string): (vs: seq<Value>) {
    if fs == [] then []
    else
      var before, last := ValuesAt(fs[..|fs| - 1], key), fs[|fs| - 1];
      if last.key == key then before + [last.value] else before
  }

  /** A field given at most once, with a value that decodes. */
  function Optional<T>(fs: seq<Field>, key: string, dec: Value -> Decoded<T>): Decoded<Option<T>> {
    var vs := ValuesAt(fs, key);
    if vs == [] then Ok(None)
    else if |vs| > 1 then Rejected(Duplicate(key))
    else
      var r := dec(vs[0]);
      if r.Ok? then Ok(Some(r.value)) else Rejected(BadValue(key, r.fault))
  }

  /** A field given exactly once, with a value that decodes. */
  function Required<T>(fs: seq<Field>, key: string, dec: Value -> Decoded<T>): Decoded<T> {
    var r := Optional(fs, key, dec);
    if r.Rejected? then Rejected(r.fault)
    else if r.value.None? then Rejected(Missing(key))
    else Ok(r.value.value)
  }

  // Each of these has the fields of one record type looked up by key; which fault it reports when
  // there are several does not follow the order of the fields.

  function RegionFields(fs: seq<Field>): Decoded<MemoryRegion> {
    var guestAddr, size := Required(fs, "guest_addr", DecodeU64), Required(fs, "size", DecodeU64);
    var data := Required(fs, "data", DecodeByteList);
    if guestAddr.Rejected? then Rejected(guestAddr.fault)
    else if size.Rejected? then Rejected(size.fault)
    else if data.Rejected? then Rejected(data.fault)
    else Ok(MemoryRegion(guestAddr.value, size.value, data.value))
  }

  function DeviceFields(fs: seq<Field>): Decoded<DeviceState> {
    var deviceType, state := Required(fs, "device_type", DecodeText), Required(fs, "state", DecodeBytes);
    if deviceType.Rejected? then Rejected(deviceType.fault)
    else if state.Rejected? then Rejected(state.fault)
    else Ok(DeviceState(deviceType.value, state.value))
  }

  function VcpuFields(fs: seq<Field>): Decoded<VcpuState> {
    var id, regs := Required(fs, "id", DecodeU32), Required(fs, "regs", DecodeRegs);
    var sregs, fpu := Required(fs, "sregs", DecodeSregs), Required(fs, "fpu", DecodeFpu);
    var msrs := Optional(fs, "msrs", DecodeMsrs);
    if id.Rejected? then Rejected(id.fault)
    else if regs.Rejected? then Rejected(regs.fault)
    else if sregs.Rejected? then Rejected(sregs.fault)
    else if fpu.Rejected? then Rejected(fpu.fault)
    else if msrs.Rejected? then Rejected(msrs.fault)
    else Ok(VcpuState(id.value, regs.value, sregs.value, fpu.value, msrs.value.GetOr([])))
  }

  // ----- Decoding records in the order of their fields -----

  function FaultOf<T>(key: string, r: Decoded<T>): Option<Fault> {
    if r.Ok? then None else Some(BadValue(key, r.fault))
  }

  /**
   The fault the loop over the fields stops at: the first field with a known key that has come
   before, or whose value does not decode.  check gives the fault of a value for a known key.
   */
  function FirstFault(fs: seq<Field>, keys: set<string>, check: (string, Value) -> Option<Fault>): (f: Option<Fault>) {
    if fs == [] then None
    else
      var before, last := fs[..|fs| - 1], fs[|fs| - 1];
      var earlier := FirstFault(before, keys, check);
      if earlier.Some? then earlier
      else if last.key !in keys then None
      else if ValuesAt(before, last.key) != [] then Some(Duplicate(last.key))
      else check(last.key, last.value)
  }

  const REGION_KEYS := {"guest_addr", "size", "data"}
  const DEVICE_KEYS := {"device_type", "state"}
  const VCPU_KEYS := {"id", "regs", "sregs", "fpu", "msrs"}
  const VM_KEYS := {"memory_regions", "vcpu_states", "device_states"}

  function RegionCheck(key: string, v: Value): Option<Fault> {
    if key == "guest_addr" then FaultOf(key, DecodeU64(v))
    else if key == "size" then FaultOf(key, DecodeU64(v))
    else FaultOf(key, DecodeByteList(v))
  }

  function DeviceCheck(key: string, v: Value): Option<Fault> {
    if key == "device_type" then FaultOf(key, DecodeText(v)) else FaultOf(key, DecodeBytes(v))
  }

  function VcpuCheck(key: string, v: Value): Option<Fault> {
    if key == "id" then FaultOf(key, DecodeU32(v))
    else if key == "regs" then FaultOf(key, DecodeRegs(v))
    else if key == "sregs" then FaultOf(key, DecodeSregs(v))
    else if key == "fpu" then FaultOf(key, DecodeFpu(v))
    else FaultOf(key, DecodeMsrs(v))
  }

  /** What the visitor of a record type returns: the first fault in the order of the fields, then missing keys. */
  function RegionInOrder(fs: seq<Field>): Decoded<MemoryRegion> {
    var f := FirstFault(fs, REGION_KEYS, RegionCheck);
    if f.Some? then Rejected(f.value) else RegionFields(fs)
  }

  function DeviceInOrder(fs: seq<Field>): Decoded<DeviceState> {
    var f := FirstFault(fs, DEVICE_KEYS, DeviceCheck);
    if f.Some? then Rejected(f.value) else DeviceFields(fs)
  }

  function VcpuInOrder(fs: seq<Field>): Decoded<VcpuState> {
    var f := FirstFault(fs, VCPU_KEYS, VcpuCheck);
    if f.Some? then Rejected(f.value) else VcpuFields(fs)
  }

  function DecodeRegion(v: Value): Decoded<MemoryRegion> {
    if v.Record? then RegionInOrder(v.fields) else Rejected(Malformed)
  }

  function DecodeDevice(v: Value): Decoded<DeviceState> {
    if v.Record? then DeviceInOrder(v.fields) else Rejected(Malformed)
  }

  function DecodeVcpu(v: Value): Decoded<VcpuState> {
    if v.Record? then VcpuInOrder(v.fields) else Rejected(Malformed)
  }

  function DecodeRegions(v: Value): Decoded<seq<MemoryRegion>> {
    DecodeVec(v, DecodeRegion)
  }

  function DecodeVcpus(v: Value): Decoded<seq<VcpuState>> {
    DecodeVec(v, DecodeVcpu)
  }

  function DecodeDevices(v: Value): Decoded<seq<DeviceState>> {
    DecodeVec(v, DecodeDevice)
  }

  function VmFields(fs: seq<Field>): Decoded<VmState> {
    var regions := Required(fs, "memory_regions", DecodeRegions);
    var vcpus := Optional(fs, "vcpu_states", DecodeVcpus);
    var devices := Optional(fs, "device_states", DecodeDevices);
    if regions.Rejected? then Rejected(regions.fault)
    else if vcpus.Rejected? then Rejected(vcpus.fault)
    else if devices.Rejected? then Rejected(devices.fault)
    else Ok(VmState(regions.value, vcpus.value.GetOr([]), devices.value.GetOr([])))
  }

  function VmCheck(key: string, v: Value): Option<Fault> {
    if key == "memory_regions" then FaultOf(key, DecodeRegions(v))
    else if key == "device_states" then FaultOf(key, DecodeDevices(v))
    else FaultOf(key, DecodeVcpus(v))
  }

  function VmInOrder(fs: seq<Field>): Decoded<VmState> {
    var f := FirstFault(fs, VM_KEYS, VmCheck);
    if f.Some? then Rejected(f.value) else VmFields(fs)
  }

  function DecodeVm(v: Value): Decoded<VmState> {
    if v.Record? then VmInOrder(v.fields) else Rejected(Malformed)
  }
}
