/** When decoding a snapshot panics instead of returning an error. */
module RecordPanics {
  import opened Words
  import opened Records
  import opened RecordOrder
  import opened RecordTheorems

  // ----- A stretch of fields with nothing wrong -----

  /** Every known key comes once at most, and its value decodes. */
  predicate Sound(fs: seq<Field>, keys: set<string>, check: (string, Value) -> Option<Fault>) {
    && (forall i :: 0 <= i < |fs| && fs[i].key in keys ==> check(fs[i].key, fs[i].value) == None)
    && (forall i, j :: 0 <= i < j < |fs| && fs[i].key in keys ==> fs[i].key != fs[j].key)
  }

  lemma {:induction false} SoundExactly(fs: seq<Field>, keys: set<string>, check: (string, Value) -> Option<Fault>)
    ensures FirstFault(fs, keys, check) == None <==> Sound(fs, keys, check)
  {
    if fs == [] {
    } else {
      var before, last := fs[..|fs| - 1], fs[|fs| - 1];
      SoundExactly(before, keys, check);
      AbsentExactly(before, last.key);
      assert Sound(fs, keys, check) ==> Sound(before, keys, check);
    }
  }

  lemma {:induction false} AbsentExactly(fs: seq<Field>, key: string)
    ensures ValuesAt(fs, key) == [] <==> forall i :: 0 <= i < |fs| ==> fs[i].key != key
  {
    if fs == [] {
    } else {
      AbsentExactly(fs[..|fs| - 1], key);
    }
  }

  /** Field k is the first that offends: what comes before is sound, and k repeats a key or does not decode. */
  predicate Offends(fs: seq<Field>, k: nat, keys: set<string>, check: (string, Value) -> Option<Fault>, f: Fault) {
    && k < |fs| && Sound(fs[..k], keys, check) && fs[k].key in keys
    && Some(f) == if ValuesAt(fs[..k], fs[k].key) != [] then Some(Duplicate(fs[k].key))
                  else check(fs[k].key, fs[k].value)
  }

  lemma FirstFaultExactly(fs: seq<Field>, keys: set<string>, check: (string, Value) -> Option<Fault>, f: Fault)
    ensures FirstFault(fs, keys, check) == Some(f) <==> exists k: nat :: Offends(fs, k, keys, check, f)
  {
    hide FirstFault, Sound;
    if FirstFault(fs, keys, check) == Some(f) {
      var k := FaultyField(fs, keys, check);
      SoundExactly(fs[..k], keys, check);
      assert Offends(fs, k, keys, check, f);
    }
    if k: nat :| Offends(fs, k, keys, check, f) {
      SoundExactly(fs[..k], keys, check);
      FirstFaultStep(fs, k, keys, check);
      FirstFaultStays(fs, k + 1, keys, check);
    }
  }

  // ----- Which values panic -----

  lemma {:induction false} NumbersOnly(items: seq<Value>)
    ensures DecodeAll(items, DecodeU8).Rejected? ==> DecodeAll(items, DecodeU8).fault == Malformed
  {
    if items == [] {
    } else {
      NumbersOnly(items[1..]);
    }
  }

  lemma {:induction false} MsrsOnly(items: seq<Value>)
    ensures DecodeAll(items, DecodeMsr).Rejected? ==> DecodeAll(items, DecodeMsr).fault == Malformed
  {
    if items == [] {
    } else {
      MsrsOnly(items[1..]);
    }
  }

  const IMAGES: map<string, nat> := map["regs" := 144, "sregs" := 312, "fpu" := 416]

  /** A register image that decodes to bytes of the wrong number. */
  predicate WrongLength(key: string, v: Value) {
    key in IMAGES && DecodeByteBuf(v).Ok? && |DecodeByteBuf(v).value| != IMAGES[key]
  }

  lemma ImagePanicsExactly(v: Value, size: nat)
    ensures DecodeImage(v, size).Rejected? && Panics(DecodeImage(v, size).fault)
       <==> DecodeByteBuf(v).Ok? && |DecodeByteBuf(v).value| != size
  {
    hide DecodeAll;
    if v.List? {
      NumbersOnly(v.items);
    }
  }

  lemma VcpuValuePanicsExactly(key: string, v: Value)
    requires key in VCPU_KEYS
    ensures VcpuCheck(key, v).Some? && Panics(VcpuCheck(key, v).value) <==> WrongLength(key, v)
  {
    hide DecodeAll, DecodeImage, DecodeByteBuf;
    KeysDiffer();
    ImagePanicsExactly(v, 144);
    ImagePanicsExactly(v, 312);
    ImagePanicsExactly(v, 416);
    if v.List? {
      MsrsOnly(v.items);
    }
  }

  // ----- vCPU states -----

  /** Field k is the first that offends, and it is a register image of the wrong length. */
  predicate WrongImageFirst(fs: seq<Field>, k: nat) {
    && k < |fs| && Sound(fs[..k], VCPU_KEYS, VcpuCheck)
    && ValuesAt(fs[..k], fs[k].key) == [] && WrongLength(fs[k].key, fs[k].value)
  }

  /**
   Decoding a vCPU state panics if and only if the first offending field, in the order of the
   fields, is a register image of the wrong length.
   */
  lemma VcpuPanicsExactly(fs: seq<Field>)
    ensures VcpuInOrder(fs).Rejected? && Panics(VcpuInOrder(fs).fault) <==> exists k: nat :: WrongImageFirst(fs, k)
  {
    hide FirstFault, Sound, VcpuCheck, WrongLength, ValuesAt;
    if f :| FirstFault(fs, VCPU_KEYS, VcpuCheck) == Some(f) {
      FirstFaultExactly(fs, VCPU_KEYS, VcpuCheck, f);
      var k: nat :| Offends(fs, k, VCPU_KEYS, VcpuCheck, f);
      VcpuValuePanicsExactly(fs[k].key, fs[k].value);
      assert Panics(f) ==> WrongImageFirst(fs, k);
    } else {
      FaultlessVcpu(fs);
    }
    if k: nat :| WrongImageFirst(fs, k) {
      WrongLengthIsKnown(fs[k].key, fs[k].value);
      VcpuValuePanicsExactly(fs[k].key, fs[k].value);
      var f := VcpuCheck(fs[k].key, fs[k].value).value;
      assert Offends(fs, k, VCPU_KEYS, VcpuCheck, f);
      FirstFaultExactly(fs, VCPU_KEYS, VcpuCheck, f);
    }
  }

  lemma WrongLengthIsKnown(key: string, v: Value)
    requires WrongLength(key, v)
    ensures key in VCPU_KEYS
  {
  }

  /** Once every field is sound only a missing key is left to complain about. */
  lemma FaultlessVcpu(fs: seq<Field>)
    requires FirstFault(fs, VCPU_KEYS, VcpuCheck) == None
    ensures VcpuInOrder(fs).Rejected? ==> !Panics(VcpuInOrder(fs).fault)
  {
    hide FirstFault, ValuesAt, DecodeU32, DecodeRegs, DecodeSregs, DecodeFpu, DecodeMsrs, Optional;
    KeysDiffer();
    FaultlessKey(fs, VCPU_KEYS, VcpuCheck, "id", DecodeU32);
    FaultlessKey(fs, VCPU_KEYS, VcpuCheck, "regs", DecodeRegs);
    FaultlessKey(fs, VCPU_KEYS, VcpuCheck, "sregs", DecodeSregs);
    FaultlessKey(fs, VCPU_KEYS, VcpuCheck, "fpu", DecodeFpu);
    FaultlessKey(fs, VCPU_KEYS, VcpuCheck, "msrs", DecodeMsrs);
  }

  /**
   Whether a bad record panics or is turned down depends on the order of its fields: here the
   same three fields, with the short register image first and last.
   */
  lemma PanicDependsOnOrder()
    ensures var image, id := Field("regs", Blob([])), Field("id", Num(0));
            var fs, gs := [image, id, id], [id, id, image];
            && SameFields(fs, gs, VCPU_KEYS)
            && VcpuInOrder(fs).Rejected? && Panics(VcpuInOrder(fs).fault)
            && VcpuInOrder(gs) == Rejected(Duplicate("id"))
  {
    hide VcpuInOrder, Panics;
    var image, id := Field("regs", Blob([])), Field("id", Num(0));
    var fs, gs := [image, id, id], [id, id, image];
    assert multiset(fs) == multiset(gs);
    ShortImageFirst(image, id);
    IdTwice(id, image);
  }

  lemma ShortImageFirst(image: Field, id: Field)
    requires image == Field("regs", Blob([]))
    ensures VcpuInOrder([image, id, id]).Rejected? && Panics(VcpuInOrder([image, id, id]).fault)
  {
    hide VcpuInOrder, Panics, VcpuCheck;
    var fs := [image, id, id];
    assert fs[..0] == [];
    assert WrongImageFirst(fs, 0);
    VcpuPanicsExactly(fs);
  }

  lemma IdTwice(id: Field, image: Field)
    requires id == Field("id", Num(0))
    ensures VcpuInOrder([id, id, image]) == Rejected(Duplicate("id"))
  {
    hide FirstFault;
    var gs := [id, id, image];
    assert gs[..1] == [id] && [id][..0] == [];
    assert ValuesAt(gs[..1], "id") == [Num(0)];
    assert Sound(gs[..1], VCPU_KEYS, VcpuCheck);
    assert Offends(gs, 1, VCPU_KEYS, VcpuCheck, Duplicate("id"));
    FirstFaultExactly(gs, VCPU_KEYS, VcpuCheck, Duplicate("id"));
  }

  // ----- Whole snapshots -----

  /** Element i is the first of a list that does not decode. */
  predicate FirstRejected<T>(items: seq<Value>, dec: Value -> Decoded<T>, i: nat) {
    i < |items| && dec(items[i]).Rejected? && forall j :: 0 <= j < i ==> dec(items[j]).Ok?
  }

  lemma {:induction false} ListFaultExactly<T>(items: seq<Value>, dec: Value -> Decoded<T>)
    ensures DecodeAll(items, dec).Rejected? <==> exists i: nat :: FirstRejected(items, dec, i)
    ensures forall i: nat :: FirstRejected(items, dec, i) ==> DecodeAll(items, dec) == Rejected(dec(items[i]).fault)
  {
    if items == [] {
    } else {
      var rest := items[1..];
      ListFaultExactly(rest, dec);
      if dec(items[0]).Rejected? {
        assert FirstRejected(items, dec, 0);
      } else {
        forall i: nat
          ensures FirstRejected(items, dec, i + 1) <==> FirstRejected(rest, dec, i)
        {
          assert forall j :: 0 <= j < |rest| ==> rest[j] == items[j + 1];
        }
        assert forall i: nat :: FirstRejected(items, dec, i) ==> i > 0 && FirstRejected(rest, dec, i - 1);
      }
    }
  }

  lemma KeyNeverPanics<T>(fs: seq<Field>, key: string, dec: Value -> Decoded<T>)
    requires forall x :: dec(x).Rejected? ==> !Panics(dec(x).fault)
    ensures Optional(fs, key, dec).Rejected? ==> !Panics(Optional(fs, key, dec).fault)
  {
  }

  lemma BytesNeverPanic(v: Value)
    ensures DecodeByteList(v).Rejected? ==> !Panics(DecodeByteList(v).fault)
  {
    if v.List? {
      NumbersOnly(v.items);
    }
  }

  lemma RegionNeverPanics(v: Value)
    ensures DecodeRegion(v).Rejected? ==> !Panics(DecodeRegion(v).fault)
  {
    hide FirstFault, Optional, DecodeByteList;
    if v.Record? {
      forall x
        ensures DecodeByteList(x).Rejected? ==> !Panics(DecodeByteList(x).fault)
      {
        BytesNeverPanic(x);
      }
      KeyNeverPanics(v.fields, "guest_addr", DecodeU64);
      KeyNeverPanics(v.fields, "size", DecodeU64);
      KeyNeverPanics(v.fields, "data", DecodeByteList);
      if FirstFault(v.fields, REGION_KEYS, RegionCheck).Some? {
        var k := FaultyField(v.fields, REGION_KEYS, RegionCheck);
      }
    }
  }

  lemma DeviceNeverPanics(v: Value)
    ensures DecodeDevice(v).Rejected? ==> !Panics(DecodeDevice(v).fault)
  {
    hide FirstFault, ValuesAt;
    if v.Record? && FirstFault(v.fields, DEVICE_KEYS, DeviceCheck).Some? {
      var k := FaultyField(v.fields, DEVICE_KEYS, DeviceCheck);
    }
  }

  lemma ListNeverPanics<T>(v: Value, dec: Value -> Decoded<T>)
    requires forall x :: dec(x).Rejected? ==> !Panics(dec(x).fault)
    ensures DecodeVec(v, dec).Rejected? ==> !Panics(DecodeVec(v, dec).fault)
  {
    hide DecodeAll;
    if v.List? {
      ListFaultExactly(v.items, dec);
    }
  }

  /** The first vCPU state of the list that does not decode is one that panics. */
  ghost predicate PanickingVcpu(v: Value, i: nat) {
    && v.List? && FirstRejected(v.items, DecodeVcpu, i)
    && v.items[i].Record? && exists k: nat :: WrongImageFirst(v.items[i].fields, k)
  }

  lemma VcpusPanicExactly(v: Value)
    ensures DecodeVcpus(v).Rejected? && Panics(DecodeVcpus(v).fault) <==> exists i: nat :: PanickingVcpu(v, i)
  {
    hide DecodeAll, VcpuInOrder, WrongImageFirst;
    if v.List? {
      ListFaultExactly(v.items, DecodeVcpu);
      forall i: nat | FirstRejected(v.items, DecodeVcpu, i)
        ensures Panics(DecodeVcpu(v.items[i]).fault) <==> PanickingVcpu(v, i)
      {
        if v.items[i].Record? {
          VcpuPanicsExactly(v.items[i].fields);
        }
      }
    }
  }

  lemma VmValuePanicsExactly(key: string, v: Value)
    requires key in VM_KEYS
    ensures VmCheck(key, v).Some? && Panics(VmCheck(key, v).value)
       <==> key == "vcpu_states" && exists i: nat :: PanickingVcpu(v, i)
  {
    hide DecodeVec, DecodeRegion, DecodeDevice, DecodeVcpu, PanickingVcpu;
    VcpusPanicExactly(v);
    forall x
      ensures DecodeRegion(x).Rejected? ==> !Panics(DecodeRegion(x).fault)
      ensures DecodeDevice(x).Rejected? ==> !Panics(DecodeDevice(x).fault)
    {
      RegionNeverPanics(x);
      DeviceNeverPanics(x);
    }
    ListNeverPanics(v, DecodeRegion);
    ListNeverPanics(v, DecodeDevice);
  }

  /** Field k is the first that offends, and it is the list of vCPU states, one of which panics. */
  ghost predicate PanickingListFirst(fs: seq<Field>, k: nat) {
    && k < |fs| && Sound(fs[..k], VM_KEYS, VmCheck)
    && fs[k].key == "vcpu_states" && ValuesAt(fs[..k], fs[k].key) == []
    && exists i: nat :: PanickingVcpu(fs[k].value, i)
  }

  /**
   Decoding a snapshot panics if and only if its first offending field is the list of vCPU
   states, and the first offending field of the first bad one is a register image of the wrong length.
   */
  lemma VmPanicsExactly(fs: seq<Field>)
    ensures VmInOrder(fs).Rejected? && Panics(VmInOrder(fs).fault) <==> exists k: nat :: PanickingListFirst(fs, k)
  {
    hide FirstFault, Sound, VmCheck, PanickingVcpu, ValuesAt;
    if f :| FirstFault(fs, VM_KEYS, VmCheck) == Some(f) {
      FirstFaultExactly(fs, VM_KEYS, VmCheck, f);
      var k: nat :| Offends(fs, k, VM_KEYS, VmCheck, f);
      VmValuePanicsExactly(fs[k].key, fs[k].value);
      assert Panics(f) ==> PanickingListFirst(fs, k);
    } else {
      FaultlessVm(fs);
    }
    if k: nat :| PanickingListFirst(fs, k) {
      VmValuePanicsExactly(fs[k].key, fs[k].value);
      var f := VmCheck(fs[k].key, fs[k].value).value;
      assert Offends(fs, k, VM_KEYS, VmCheck, f);
      FirstFaultExactly(fs, VM_KEYS, VmCheck, f);
    }
  }

  lemma FaultlessVm(fs: seq<Field>)
    requires FirstFault(fs, VM_KEYS, VmCheck) == None
    ensures VmInOrder(fs).Rejected? ==> !Panics(VmInOrder(fs).fault)
  {
    hide FirstFault, ValuesAt, DecodeRegions, DecodeVcpus, DecodeDevices, Optional;
    FaultlessKey(fs, VM_KEYS, VmCheck, "memory_regions", DecodeRegions);
    FaultlessKey(fs, VM_KEYS, VmCheck, "device_states", DecodeDevices);
    FaultlessKey(fs, VM_KEYS, VmCheck, "vcpu_states", DecodeVcpus);
  }

  // ----- Which missing key is named -----

  /** The first of the names, in their order, that has no value among the fields. */
  function FirstAbsent(fs: seq<Field>, names: seq<string>): (r: Option<string>) {
    if names == [] then None
    else if ValuesAt(fs, names[0]) == [] then Some(names[0])
    else FirstAbsent(fs, names[1..])
  }

  lemma FirstAbsentStep(fs: seq<Field>, name: string, names: seq<string>)
    ensures FirstAbsent(fs, [name] + names) == if ValuesAt(fs, name) == [] then Some(name) else FirstAbsent(fs, names)
  {
    hide ValuesAt;
    assert ([name] + names)[1..] == names;
  }

  lemma FirstAbsentOfThree(fs: seq<Field>, a: string, b: string, c: string)
    ensures FirstAbsent(fs, [a, b, c])
         == if ValuesAt(fs, a) == [] then Some(a)
            else if ValuesAt(fs, b) == [] then Some(b)
            else if ValuesAt(fs, c) == [] then Some(c)
            else None
  {
    hide ValuesAt;
    FirstAbsentStep(fs, c, []);
    FirstAbsentStep(fs, b, [c]);
    FirstAbsentStep(fs, a, [b] + [c]);
    assert [c] + [] == [c] && [a] + ([b] + [c]) == [a, b, c];
  }

  /** A vCPU state without a faulty field is turned down for the first of id, regs, sregs and fpu that is missing. */
  lemma VcpuMissingInOrder(fs: seq<Field>)
    requires FirstFault(fs, VCPU_KEYS, VcpuCheck) == None
    ensures var absent := FirstAbsent(fs, ["id", "regs", "sregs", "fpu"]);
            if absent.Some? then VcpuInOrder(fs) == Rejected(Missing(absent.value)) else VcpuInOrder(fs).Ok?
  {
    hide FirstFault, ValuesAt, DecodeU32, DecodeRegs, DecodeSregs, DecodeFpu, DecodeMsrs, FirstAbsent;
    KeysDiffer();
    FirstAbsentOfThree(fs, "regs", "sregs", "fpu");
    FirstAbsentStep(fs, "id", ["regs", "sregs", "fpu"]);
    assert ["id"] + ["regs", "sregs", "fpu"] == ["id", "regs", "sregs", "fpu"];
    FaultlessKey(fs, VCPU_KEYS, VcpuCheck, "id", DecodeU32);
    FaultlessKey(fs, VCPU_KEYS, VcpuCheck, "regs", DecodeRegs);
    FaultlessKey(fs, VCPU_KEYS, VcpuCheck, "sregs", DecodeSregs);
    FaultlessKey(fs, VCPU_KEYS, VcpuCheck, "fpu", DecodeFpu);
    FaultlessKey(fs, VCPU_KEYS, VcpuCheck, "msrs", DecodeMsrs);
  }

  /** A memory region for the first of guest_addr, size and data. */
  lemma RegionMissingInOrder(fs: seq<Field>)
    requires FirstFault(fs, REGION_KEYS, RegionCheck) == None
    ensures var absent := FirstAbsent(fs, ["guest_addr", "size", "data"]);
            if absent.Some? then RegionInOrder(fs) == Rejected(Missing(absent.value)) else RegionInOrder(fs).Ok?
  {
    hide FirstFault, ValuesAt, DecodeU64, DecodeByteList, FirstAbsent;
    KeysDiffer();
    FirstAbsentOfThree(fs, "guest_addr", "size", "data");
    FaultlessKey(fs, REGION_KEYS, RegionCheck, "guest_addr", DecodeU64);
    FaultlessKey(fs, REGION_KEYS, RegionCheck, "size", DecodeU64);
    FaultlessKey(fs, REGION_KEYS, RegionCheck, "data", DecodeByteList);
  }

  /** A device state for its type before its state, and a snapshot for its memory regions only. */
  lemma OthersMissingInOrder(fs: seq<Field>)
    ensures FirstFault(fs, DEVICE_KEYS, DeviceCheck) == None ==>
              if ValuesAt(fs, "device_type") == [] then DeviceInOrder(fs) == Rejected(Missing("device_type"))
              else if ValuesAt(fs, "state") == [] then DeviceInOrder(fs) == Rejected(Missing("state"))
              else DeviceInOrder(fs).Ok?
    ensures FirstFault(fs, VM_KEYS, VmCheck) == None ==>
              if ValuesAt(fs, "memory_regions") == [] then VmInOrder(fs) == Rejected(Missing("memory_regions"))
              else VmInOrder(fs).Ok?
  {
    hide FirstFault, ValuesAt, DecodeText, DecodeBytes, DecodeRegions, DecodeVcpus, DecodeDevices;
    KeysDiffer();
    if FirstFault(fs, DEVICE_KEYS, DeviceCheck) == None {
      FaultlessKey(fs, DEVICE_KEYS, DeviceCheck, "device_type", DecodeText);
      FaultlessKey(fs, DEVICE_KEYS, DeviceCheck, "state", DecodeBytes);
    }
    if FirstFault(fs, VM_KEYS, VmCheck) == None {
      FaultlessKey(fs, VM_KEYS, VmCheck, "memory_regions", DecodeRegions);
      FaultlessKey(fs, VM_KEYS, VmCheck, "device_states", DecodeDevices);
      FaultlessKey(fs, VM_KEYS, VmCheck, "vcpu_states", DecodeVcpus);
    }
  }
}
