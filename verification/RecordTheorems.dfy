/** Order independence and round trips of the snapshot records. */
module RecordTheorems {
  import opened Words
  import opened SnapshotMemory
  import opened Records
  import opened RecordOrder

  // ----- Field order does not matter -----

  lemma {:induction false} CountAt(fs: seq<Field>, key: string, v: Value)
    ensures multiset(ValuesAt(fs, key))[v] == multiset(fs)[Field(key, v)]
  {
    if fs == [] {
    } else {
      var before, last := fs[..|fs| - 1], fs[|fs| - 1];
      CountAt(before, key, v);
      assert fs == before + [last];
    }
  }

  /** The fields with these keys are the same in number and value; order and other fields are free. */
  ghost predicate SameFields(fs: seq<Field>, gs: seq<Field>, keys: set<string>) {
    forall f: Field :: f.key in keys ==> multiset(fs)[f] == multiset(gs)[f]
  }

  lemma SameOptional<T>(fs: seq<Field>, gs: seq<Field>, keys: set<string>, key: string, dec: Value -> Decoded<T>)
    requires SameFields(fs, gs, keys) && key in keys
    ensures Optional(fs, key, dec) == Optional(gs, key, dec)
  {
    var vs, ws := ValuesAt(fs, key), ValuesAt(gs, key);
    forall v: Value
      ensures multiset(vs)[v] == multiset(ws)[v]
    {
      CountAt(fs, key, v);
      CountAt(gs, key, v);
    }
    assert multiset(vs) == multiset(ws);
    assert |vs| == |multiset(vs)| == |ws|;
    if |vs| == 1 {
      assert vs[0] in multiset(ws);
    }
  }

  // The order decides which fault is reported, but not whether a record is accepted nor what it decodes to.

  lemma RegionOrderFree(fs: seq<Field>, gs: seq<Field>)
    requires SameFields(fs, gs, REGION_KEYS)
    ensures RegionFields(fs) == RegionFields(gs)
    ensures RegionInOrder(fs).Ok? <==> RegionInOrder(gs).Ok?
    ensures RegionInOrder(fs).Ok? ==> RegionInOrder(fs) == RegionInOrder(gs)
  {
    RegionAgrees(fs);
    RegionAgrees(gs);
    SameOptional(fs, gs, REGION_KEYS, "guest_addr", DecodeU64);
    SameOptional(fs, gs, REGION_KEYS, "size", DecodeU64);
    SameOptional(fs, gs, REGION_KEYS, "data", DecodeByteList);
  }

  lemma DeviceOrderFree(fs: seq<Field>, gs: seq<Field>)
    requires SameFields(fs, gs, DEVICE_KEYS)
    ensures DeviceFields(fs) == DeviceFields(gs)
    ensures DeviceInOrder(fs).Ok? <==> DeviceInOrder(gs).Ok?
    ensures DeviceInOrder(fs).Ok? ==> DeviceInOrder(fs) == DeviceInOrder(gs)
  {
    DeviceAgrees(fs);
    DeviceAgrees(gs);
    SameOptional(fs, gs, DEVICE_KEYS, "device_type", DecodeText);
    SameOptional(fs, gs, DEVICE_KEYS, "state", DecodeBytes);
  }

  lemma VcpuOrderFree(fs: seq<Field>, gs: seq<Field>)
    requires SameFields(fs, gs, VCPU_KEYS)
    ensures VcpuFields(fs) == VcpuFields(gs)
    ensures VcpuInOrder(fs).Ok? <==> VcpuInOrder(gs).Ok?
    ensures VcpuInOrder(fs).Ok? ==> VcpuInOrder(fs) == VcpuInOrder(gs)
  {
    VcpuAgrees(fs);
    VcpuAgrees(gs);
    SameOptional(fs, gs, VCPU_KEYS, "id", DecodeU32);
    SameOptional(fs, gs, VCPU_KEYS, "regs", DecodeRegs);
    SameOptional(fs, gs, VCPU_KEYS, "sregs", DecodeSregs);
    SameOptional(fs, gs, VCPU_KEYS, "fpu", DecodeFpu);
    SameOptional(fs, gs, VCPU_KEYS, "msrs", DecodeMsrs);
  }

  lemma VmOrderFree(fs: seq<Field>, gs: seq<Field>)
    requires SameFields(fs, gs, VM_KEYS)
    ensures VmFields(fs) == VmFields(gs)
    ensures VmInOrder(fs).Ok? <==> VmInOrder(gs).Ok?
    ensures VmInOrder(fs).Ok? ==> VmInOrder(fs) == VmInOrder(gs)
  {
    VmAgrees(fs);
    VmAgrees(gs);
    SameOptional(fs, gs, VM_KEYS, "memory_regions", DecodeRegions);
    SameOptional(fs, gs, VM_KEYS, "vcpu_states", DecodeVcpus);
    SameOptional(fs, gs, VM_KEYS, "device_states", DecodeDevices);
  }

  // ----- Round trips -----

  /** One field per key: looking a key up finds its value. */
  lemma {:induction false} OnlyValue(fs: seq<Field>, i: nat)
    requires i < |fs|
    requires forall j :: 0 <= j < |fs| && j != i ==> fs[j].key != fs[i].key
    ensures ValuesAt(fs, fs[i].key) == [fs[i].value]
  {
    var before := fs[..|fs| - 1];
    if i == |fs| - 1 {
      NoValue(before, fs[i].key);
    } else {
      OnlyValue(before, i);
    }
  }

  lemma {:induction false} NoValue(fs: seq<Field>, key: string)
    requires forall j :: 0 <= j < |fs| ==> fs[j].key != key
    ensures ValuesAt(fs, key) == []
  {
    if fs == [] {
    } else {
      NoValue(fs[..|fs| - 1], key);
    }
  }

  /** A vector whose elements each decode comes back element by element. */
  lemma {:induction false} VecRoundTrip<T, U>(xs: seq<T>, enc: T -> Value, dec: Value -> Decoded<U>, back: seq<U>)
    requires |back| == |xs|
    requires forall i :: 0 <= i < |xs| ==> dec(enc(xs[i])) == Ok(back[i])
    ensures DecodeVec(EncodeAll(xs, enc), dec) == Ok(back)
  {
    if xs == [] {
    } else {
      VecRoundTrip(xs[1..], enc, dec, back[1..]);
      assert EncodeAll(xs, enc).items[1..] == EncodeAll(xs[1..], enc).items;
      assert back == [back[0]] + back[1..];
    }
  }

  lemma RegionRoundTrip(r: MemoryRegion)
    ensures DecodeRegion(EncodeRegion(r)) == Ok(r)
  {
    var fs := EncodeRegion(r).fields;
    assert "size"[0] != "data"[0];
    RegionAgrees(fs);
    OnlyValue(fs, 0);
    OnlyValue(fs, 1);
    OnlyValue(fs, 2);
    VecRoundTrip(r.data, EncodeByte, DecodeU8, r.data);
  }

  lemma DeviceRoundTrip(d: DeviceState)
    ensures DecodeDevice(EncodeDevice(d)) == Ok(d)
  {
    var fs := EncodeDevice(d).fields;
    DeviceAgrees(fs);
    OnlyValue(fs, 0);
    OnlyValue(fs, 1);
  }

  /** MSRs with their reserved fields cleared. */
  function ClearReserved(msrs: seq<Msr>): (r: seq<Msr>)
    ensures |r| == |msrs|
  {
    seq(|msrs|, i requires 0 <= i < |msrs| => msrs[i].(reserved := 0))
  }

  function Normalized(c: VcpuState): VcpuState {
    c.(msrs := ClearReserved(c.msrs))
  }

  lemma VcpuValues(c: VcpuState)
    ensures var fs := EncodeVcpu(c).fields;
            && ValuesAt(fs, "id") == [Num(c.id)]
            && ValuesAt(fs, "regs") == [Blob(c.regs)]
            && ValuesAt(fs, "sregs") == [Blob(c.sregs)]
            && ValuesAt(fs, "fpu") == [Blob(c.fpu)]
            && ValuesAt(fs, "msrs") == [EncodeAll(c.msrs, EncodeMsr)]
  {
    hide EncodeAll, ValuesAt;
    var fs := EncodeVcpu(c).fields;
    KeysDiffer();
    OnlyValue(fs, 0);
    OnlyValue(fs, 1);
    OnlyValue(fs, 2);
    OnlyValue(fs, 3);
    OnlyValue(fs, 4);
  }

  lemma VcpuRoundTrip(c: VcpuState)
    ensures DecodeVcpu(EncodeVcpu(c)) == Ok(Normalized(c))
  {
    hide EncodeAll, DecodeMsrs, VcpuInOrder, ValuesAt;
    VcpuValues(c);
    VcpuAgrees(EncodeVcpu(c).fields);
    MsrsRoundTrip(c.msrs);
  }

  lemma MsrsRoundTrip(msrs: seq<Msr>)
    ensures DecodeMsrs(EncodeAll(msrs, EncodeMsr)) == Ok(ClearReserved(msrs))
  {
    VecRoundTrip(msrs, EncodeMsr, DecodeMsr, ClearReserved(msrs));
  }

  function NormalizedAll(cs: seq<VcpuState>): (r: seq<VcpuState>)
    ensures |r| == |cs|
  {
    seq(|cs|, i requires 0 <= i < |cs| => Normalized(cs[i]))
  }

  lemma RegionsRoundTrip(rs: seq<MemoryRegion>)
    ensures DecodeRegions(EncodeAll(rs, EncodeRegion)) == Ok(rs)
  {
    forall i | 0 <= i < |rs|
      ensures DecodeRegion(EncodeRegion(rs[i])) == Ok(rs[i])
    {
      RegionRoundTrip(rs[i]);
    }
    VecRoundTrip(rs, EncodeRegion, DecodeRegion, rs);
  }

  lemma VcpusRoundTrip(cs: seq<VcpuState>)
    ensures DecodeVcpus(EncodeAll(cs, EncodeVcpu)) == Ok(NormalizedAll(cs))
  {
    forall i | 0 <= i < |cs|
      ensures DecodeVcpu(EncodeVcpu(cs[i])) == Ok(NormalizedAll(cs)[i])
    {
      VcpuRoundTrip(cs[i]);
    }
    VecRoundTrip(cs, EncodeVcpu, DecodeVcpu, NormalizedAll(cs));
  }

  lemma DevicesRoundTrip(ds: seq<DeviceState>)
    ensures DecodeDevices(EncodeAll(ds, EncodeDevice)) == Ok(ds)
  {
    forall i | 0 <= i < |ds|
      ensures DecodeDevice(EncodeDevice(ds[i])) == Ok(ds[i])
    {
      DeviceRoundTrip(ds[i]);
    }
    VecRoundTrip(ds, EncodeDevice, DecodeDevice, ds);
  }

  /** Every snapshot comes back from its own encoding, unchanged but for the reserved field of each MSR. */
  lemma VmRoundTrip(vm: VmState)
    ensures DecodeVm(EncodeVm(vm)) == Ok(vm.(vcpuStates := NormalizedAll(vm.vcpuStates)))
  {
    hide EncodeAll, DecodeRegions, DecodeVcpus, DecodeDevices, NormalizedAll;
    var fs := EncodeVm(vm).fields;
    VmAgrees(fs);
    OnlyValue(fs, 0);
    OnlyValue(fs, 1);
    OnlyValue(fs, 2);
    RegionsRoundTrip(vm.memoryRegions);
    VcpusRoundTrip(vm.vcpuStates);
    DevicesRoundTrip(vm.deviceStates);
  }

  /** And from any reordering of its fields, with any fields the decoder does not know mixed in. */
  lemma VmRoundTripAnyOrder(vm: VmState, gs: seq<Field>)
    requires SameFields(EncodeVm(vm).fields, gs, VM_KEYS)
    ensures DecodeVm(Record(gs)) == Ok(vm.(vcpuStates := NormalizedAll(vm.vcpuStates)))
  {
    hide VmInOrder, NormalizedAll;
    VmRoundTrip(vm);
    VmOrderFree(EncodeVm(vm).fields, gs);
  }

  // ----- JSON -----

  /** The value as JSON carries it: a byte string becomes a list of numbers. */
  function AsJson(v: Value): Value {
    match v
    case Blob(b) => EncodeAll(b, EncodeByte)
    case List(items) => List(seq(|items|, i requires 0 <= i < |items| => AsJson(items[i])))
    case Record(fields) =>
      Record(seq(|fields|, i requires 0 <= i < |fields| => Field(fields[i].key, AsJson(fields[i].value))))
    case _ => v
  }

  function JsonRegion(r: MemoryRegion): Value {
    AsJson(EncodeRegion(r))
  }

  function JsonVcpu(c: VcpuState): Value {
    AsJson(EncodeVcpu(c))
  }

  function JsonDevice(d: DeviceState): Value {
    AsJson(EncodeDevice(d))
  }

  lemma JsonList<T>(xs: seq<T>, enc: T -> Value, json: T -> Value)
    requires forall i :: 0 <= i < |xs| ==> json(xs[i]) == AsJson(enc(xs[i]))
    ensures AsJson(EncodeAll(xs, enc)) == EncodeAll(xs, json)
  {
  }

  lemma JsonRegionRoundTrip(r: MemoryRegion)
    ensures DecodeRegion(JsonRegion(r)) == Ok(r)
  {
    JsonList(r.data, EncodeByte, EncodeByte);
    var fs, js := EncodeRegion(r).fields, JsonRegion(r).fields;
    assert AsJson(fs[0].value) == fs[0].value && AsJson(fs[1].value) == fs[1].value;
    assert AsJson(fs[2].value) == fs[2].value;
    assert fs == js;
    RegionRoundTrip(r);
  }

  lemma JsonMsrs(msrs: seq<Msr>)
    ensures AsJson(EncodeAll(msrs, EncodeMsr)) == EncodeAll(msrs, EncodeMsr)
  {
    forall m: Msr
      ensures AsJson(EncodeMsr(m)) == EncodeMsr(m)
    {
      assert AsJson(EncodeMsr(m)).items == EncodeMsr(m).items;
    }
    JsonList(msrs, EncodeMsr, EncodeMsr);
  }

  lemma JsonImages(c: VcpuState)
    ensures DecodeRegs(AsJson(Blob(c.regs))) == Ok(c.regs)
    ensures DecodeSregs(AsJson(Blob(c.sregs))) == Ok(c.sregs)
    ensures DecodeFpu(AsJson(Blob(c.fpu))) == Ok(c.fpu)
  {
    VecRoundTrip(c.regs, EncodeByte, DecodeU8, c.regs);
    VecRoundTrip(c.sregs, EncodeByte, DecodeU8, c.sregs);
    VecRoundTrip(c.fpu, EncodeByte, DecodeU8, c.fpu);
  }

  lemma JsonVcpuValues(c: VcpuState)
    ensures JsonVcpu(c).Record?
    ensures var fs := JsonVcpu(c).fields;
            && ValuesAt(fs, "id") == [Num(c.id)]
            && ValuesAt(fs, "regs") == [AsJson(Blob(c.regs))]
            && ValuesAt(fs, "sregs") == [AsJson(Blob(c.sregs))]
            && ValuesAt(fs, "fpu") == [AsJson(Blob(c.fpu))]
            && ValuesAt(fs, "msrs") == [AsJson(EncodeAll(c.msrs, EncodeMsr))]
  {
    hide EncodeAll, ValuesAt;
    var fs := JsonVcpu(c).fields;
    KeysDiffer();
    assert AsJson(Num(c.id)) == Num(c.id);
    OnlyValue(fs, 0);
    OnlyValue(fs, 1);
    OnlyValue(fs, 2);
    OnlyValue(fs, 3);
    OnlyValue(fs, 4);
  }

  lemma JsonVcpuRoundTrip(c: VcpuState)
    ensures DecodeVcpu(JsonVcpu(c)) == Ok(Normalized(c))
  {
    hide EncodeAll, DecodeRegs, DecodeSregs, DecodeFpu, DecodeMsrs, VcpuInOrder, ValuesAt, AsJson, JsonVcpu;
    JsonVcpuValues(c);
    VcpuAgrees(JsonVcpu(c).fields);
    JsonImages(c);
    JsonMsrs(c.msrs);
    MsrsRoundTrip(c.msrs);
  }

  /** The state of a device is read as a borrowed byte string, which a JSON list is not. */
  lemma JsonDeviceRejected(d: DeviceState)
    ensures DecodeDevice(JsonDevice(d)).Rejected?
  {
    var fs := JsonDevice(d).fields;
    assert fs[1] == Field("state", AsJson(Blob(d.state)));
    assert AsJson(Blob(d.state)) == EncodeAll(d.state, EncodeByte);
    DeviceAgrees(fs);
    OnlyValue(fs, 1);
  }

  lemma JsonRegionsRoundTrip(rs: seq<MemoryRegion>)
    ensures DecodeRegions(AsJson(EncodeAll(rs, EncodeRegion))) == Ok(rs)
  {
    forall i | 0 <= i < |rs|
      ensures DecodeRegion(JsonRegion(rs[i])) == Ok(rs[i])
    {
      JsonRegionRoundTrip(rs[i]);
    }
    JsonList(rs, EncodeRegion, JsonRegion);
    VecRoundTrip(rs, JsonRegion, DecodeRegion, rs);
  }

  lemma JsonVcpusRoundTrip(cs: seq<VcpuState>)
    ensures DecodeVcpus(AsJson(EncodeAll(cs, EncodeVcpu))) == Ok(NormalizedAll(cs))
  {
    forall i | 0 <= i < |cs|
      ensures DecodeVcpu(JsonVcpu(cs[i])) == Ok(NormalizedAll(cs)[i])
    {
      JsonVcpuRoundTrip(cs[i]);
    }
    JsonList(cs, EncodeVcpu, JsonVcpu);
    VecRoundTrip(cs, JsonVcpu, DecodeVcpu, NormalizedAll(cs));
  }

  lemma JsonDevices(ds: seq<DeviceState>)
    ensures DecodeDevices(AsJson(EncodeAll(ds, EncodeDevice))).Ok? <==> ds == []
    ensures ds == [] ==> DecodeDevices(AsJson(EncodeAll(ds, EncodeDevice))) == Ok([])
  {
    JsonList(ds, EncodeDevice, JsonDevice);
    if ds != [] {
      JsonDeviceRejected(ds[0]);
    }
  }

  /**
   Through JSON a snapshot comes back exactly when it carries no device states; one that carries
   any is turned down.
   */
  lemma JsonRoundTrip(vm: VmState)
    ensures DecodeVm(AsJson(EncodeVm(vm))).Ok? <==> vm.deviceStates == []
    ensures vm.deviceStates == [] ==>
              DecodeVm(AsJson(EncodeVm(vm))) == Ok(vm.(vcpuStates := NormalizedAll(vm.vcpuStates)))
  {
    hide EncodeAll, DecodeRegions, DecodeVcpus, DecodeDevices, NormalizedAll;
    var fs := AsJson(EncodeVm(vm)).fields;
    VmAgrees(fs);
    OnlyValue(fs, 0);
    OnlyValue(fs, 1);
    OnlyValue(fs, 2);
    JsonRegionsRoundTrip(vm.memoryRegions);
    JsonVcpusRoundTrip(vm.vcpuStates);
    JsonDevices(vm.deviceStates);
  }

  // ----- What is turned down -----

  lemma {:induction false} ManyValues(fs: seq<Field>, i: nat, j: nat)
    requires i < j < |fs| && fs[i].key == fs[j].key
    ensures |ValuesAt(fs, fs[i].key)| > 1
  {
    var before := fs[..|fs| - 1];
    if j == |fs| - 1 {
      SomeValue(before, i);
    } else {
      ManyValues(before, i, j);
    }
  }

  lemma {:induction false} SomeValue(fs: seq<Field>, i: nat)
    requires i < |fs|
    ensures |ValuesAt(fs, fs[i].key)| > 0
  {
    if i == |fs| - 1 {
    } else {
      SomeValue(fs[..|fs| - 1], i);
    }
  }

  /** Two fields with one known key are rejected by every record type that knows the key. */
  lemma DuplicateRejected(fs: seq<Field>, i: nat, j: nat)
    requires i < j < |fs| && fs[i].key == fs[j].key
    ensures fs[i].key in REGION_KEYS ==> RegionInOrder(fs).Rejected?
    ensures fs[i].key in DEVICE_KEYS ==> DeviceInOrder(fs).Rejected?
    ensures fs[i].key in VCPU_KEYS ==> VcpuInOrder(fs).Rejected?
    ensures fs[i].key in VM_KEYS ==> VmInOrder(fs).Rejected?
  {
    hide RegionInOrder, DeviceInOrder, VcpuInOrder, VmInOrder;
    RegionAgrees(fs);
    DeviceAgrees(fs);
    VcpuAgrees(fs);
    VmAgrees(fs);
    ManyValues(fs, i, j);
  }

  /** Leaving a key out is rejected, except for the three that stand for an empty list. */
  lemma MissingRejected(fs: seq<Field>, key: string)
    requires forall i :: 0 <= i < |fs| ==> fs[i].key != key
    ensures key in REGION_KEYS ==> RegionInOrder(fs).Rejected?
    ensures key in DEVICE_KEYS ==> DeviceInOrder(fs).Rejected?
    ensures key in VCPU_KEYS - {"msrs"} ==> VcpuInOrder(fs).Rejected?
    ensures key in VM_KEYS - {"vcpu_states", "device_states"} ==> VmInOrder(fs).Rejected?
    ensures key == "msrs" && VcpuInOrder(fs).Ok? ==> VcpuInOrder(fs).value.msrs == []
    ensures key == "vcpu_states" && VmInOrder(fs).Ok? ==> VmInOrder(fs).value.vcpuStates == []
    ensures key == "device_states" && VmInOrder(fs).Ok? ==> VmInOrder(fs).value.deviceStates == []
  {
    hide RegionInOrder, DeviceInOrder, VcpuInOrder, VmInOrder;
    RegionAgrees(fs);
    DeviceAgrees(fs);
    VcpuAgrees(fs);
    VmAgrees(fs);
    NoValue(fs, key);
  }

  // ----- What is accepted, written out -----

  /** A memory region decodes from its three fields, wherever they stand and whatever else is there. */
  lemma RegionFromFields(fs: seq<Field>, guestAddr: U64, size: U64, data: seq<Byte>)
    requires ValuesAt(fs, "guest_addr") == [Num(guestAddr)] && ValuesAt(fs, "size") == [Num(size)]
    requires ValuesAt(fs, "data") == [EncodeAll(data, EncodeByte)]
    ensures DecodeRegion(Record(fs)) == Ok(MemoryRegion(guestAddr, size, data))
  {
    hide ValuesAt, EncodeAll, RegionInOrder;
    RegionAgrees(fs);
    VecRoundTrip(data, EncodeByte, DecodeU8, data);
  }

  /** A device state decodes from its two fields, the state given as bytes. */
  lemma DeviceFromFields(fs: seq<Field>, deviceType: string, state: seq<Byte>)
    requires ValuesAt(fs, "device_type") == [Text(deviceType)] && ValuesAt(fs, "state") == [Blob(state)]
    ensures DecodeDevice(Record(fs)) == Ok(DeviceState(deviceType, state))
  {
    hide ValuesAt, DeviceInOrder;
    DeviceAgrees(fs);
  }

  /** An MSR decodes from the pair of its index and its value, in range, and from nothing else. */
  lemma MsrExactly(v: Value, msr: Msr)
    ensures DecodeMsr(v) == Ok(msr)
       <==> && v.List? && |v.items| == 2
            && v.items[0] == Num(msr.index) && v.items[1] == Num(msr.data) && msr.reserved == 0
  {
  }

  /** Numbers decode exactly in the range of their type, text from text, borrowed bytes from bytes only. */
  lemma PlainValuesExactly(v: Value, n: nat)
    ensures DecodeU8(v).Ok? <==> v.Num? && v.n < 0x100
    ensures DecodeU32(v).Ok? <==> v.Num? && v.n < 0x1_0000_0000
    ensures DecodeU64(v).Ok? <==> v.Num? && v.n < 0x1_0000_0000_0000_0000
    ensures v.Num? && DecodeU8(v).Ok? ==> DecodeU8(v).value == v.n
    ensures v.Num? && DecodeU32(v).Ok? ==> DecodeU32(v).value == v.n
    ensures v.Num? && DecodeU64(v).Ok? ==> DecodeU64(v).value == v.n
    ensures DecodeText(v) == (if v.Text? then Ok(v.s) else Rejected(Malformed))
    ensures DecodeBytes(v) == (if v.Blob? then Ok(v.b) else Rejected(Malformed))
    ensures DecodeImage(v, n).Ok? ==> v.Blob? || v.List?
    ensures v.Blob? ==> (DecodeImage(v, n) == Ok(v.b) <==> |v.b| == n)
  {
  }

  /** A vCPU state decodes from its fields, with the images given as 144, 312 and 416 bytes; MSRs may be left out. */
  lemma VcpuFromFields(fs: seq<Field>, id: U32, regs: RegsImage, sregs: SregsImage, fpu: FpuImage, pairs: seq<Value>)
    requires ValuesAt(fs, "id") == [Num(id)]
    requires ValuesAt(fs, "regs") == [Blob(regs)] && ValuesAt(fs, "sregs") == [Blob(sregs)]
    requires ValuesAt(fs, "fpu") == [Blob(fpu)]
    requires ValuesAt(fs, "msrs") == [List(pairs)] || (ValuesAt(fs, "msrs") == [] && pairs == [])
    requires DecodeAll(pairs, DecodeMsr).Ok?
    ensures |regs| == 144 && |sregs| == 312 && |fpu| == 416
    ensures DecodeVcpu(Record(fs)) == Ok(VcpuState(id, regs, sregs, fpu, DecodeAll(pairs, DecodeMsr).value))
  {
    hide ValuesAt, VcpuInOrder;
    VcpuAgrees(fs);
  }

  /** A snapshot decodes from its lists; vCPU and device states may be left out. */
  lemma VmFromFields(fs: seq<Field>, regions: seq<Value>, vcpus: seq<Value>, devices: seq<Value>)
    requires ValuesAt(fs, "memory_regions") == [List(regions)]
    requires ValuesAt(fs, "vcpu_states") == [List(vcpus)] || (ValuesAt(fs, "vcpu_states") == [] && vcpus == [])
    requires ValuesAt(fs, "device_states") == [List(devices)] || (ValuesAt(fs, "device_states") == [] && devices == [])
    requires DecodeAll(regions, DecodeRegion).Ok? && DecodeAll(vcpus, DecodeVcpu).Ok?
    requires DecodeAll(devices, DecodeDevice).Ok?
    ensures DecodeVm(Record(fs)) == Ok(VmState(
              DecodeAll(regions, DecodeRegion).value, DecodeAll(vcpus, DecodeVcpu).value,
              DecodeAll(devices, DecodeDevice).value))
  {
    hide ValuesAt, VmInOrder, DecodeRegion, DecodeVcpu, DecodeDevice;
    VmAgrees(fs);
  }
}
