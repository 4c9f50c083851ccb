/** Decoding in the order of the fields and decoding by key accept the same records and give the same values. */
module RecordOrder {
  import opened Words
  import opened Records

  // ----- One more field -----

  lemma OptionalStep<T>(fs: seq<Field>, k: nat, key: string, dec: Value -> Decoded<T>)
    requires k < |fs|
    ensures fs[k].key != key ==> Optional(fs[..k + 1], key, dec) == Optional(fs[..k], key, dec)
    ensures fs[k].key == key && Optional(fs[..k], key, dec) == Ok(None) ==>
              Optional(fs[..k + 1], key, dec)
              == (if dec(fs[k].value).Ok? then Ok(Some(dec(fs[k].value).value))
                  else Rejected(BadValue(key, dec(fs[k].value).fault)))
    ensures fs[k].key == key && Optional(fs[..k], key, dec) != Ok(None) ==>
              Optional(fs[..k + 1], key, dec) == Rejected(Duplicate(key))
  {
    assert fs[..k + 1][..k] == fs[..k];
  }

  /** A field that is bad in a prefix is bad in the whole. */
  lemma {:induction false} RejectedStays<T>(fs: seq<Field>, k: nat, key: string, dec: Value -> Decoded<T>)
    requires k <= |fs| && Optional(fs[..k], key, dec).Rejected?
    ensures Optional(fs, key, dec).Rejected?
    decreases |fs| - k
  {
    if k == |fs| {
      assert fs[..k] == fs;
    } else {
      OptionalStep(fs, k, key, dec);
      RejectedStays(fs, k + 1, key, dec);
    }
  }

  lemma {:induction false} ManyStay(fs: seq<Field>, k: nat, key: string)
    requires k <= |fs| && |ValuesAt(fs[..k], key)| > 1
    ensures |ValuesAt(fs, key)| > 1
    decreases |fs| - k
  {
    if k == |fs| {
      assert fs[..k] == fs;
    } else {
      assert fs[..k + 1][..k] == fs[..k];
      ManyStay(fs, k + 1, key);
    }
  }

  lemma RepeatedKey<T>(fs: seq<Field>, k: nat, key: string, dec: Value -> Decoded<T>, x: T)
    requires k < |fs| && fs[k].key == key && Optional(fs[..k], key, dec) == Ok(Some(x))
    ensures |ValuesAt(fs, key)| > 1
    ensures Optional(fs, key, dec).Rejected?
  {
    OptionalStep(fs, k, key, dec);
    RejectedStays(fs, k + 1, key, dec);
    assert fs[..k + 1][..k] == fs[..k];
    ManyStay(fs, k + 1, key);
  }

  // ----- The first fault -----

  lemma FirstFaultStep(fs: seq<Field>, k: nat, keys: set<string>, check: (string, Value) -> Option<Fault>)
    requires k < |fs| && FirstFault(fs[..k], keys, check) == None
    ensures FirstFault(fs[..k + 1], keys, check)
         == if fs[k].key !in keys then None
            else if ValuesAt(fs[..k], fs[k].key) != [] then Some(Duplicate(fs[k].key))
            else check(fs[k].key, fs[k].value)
  {
    assert fs[..k + 1][..k] == fs[..k];
  }

  /** A fault in a prefix is the fault of the whole. */
  lemma {:induction false} FirstFaultStays(fs: seq<Field>, k: nat, keys: set<string>,
                                           check: (string, Value) -> Option<Fault>)
    requires k <= |fs| && FirstFault(fs[..k], keys, check).Some?
    ensures FirstFault(fs, keys, check) == FirstFault(fs[..k], keys, check)
    decreases |fs| - k
  {
    if k == |fs| {
      assert fs[..k] == fs;
    } else {
      assert fs[..k + 1][..k] == fs[..k];
      FirstFaultStays(fs, k + 1, keys, check);
    }
  }

  /** The field at which the loop stops. */
  lemma {:induction false} FaultyField(fs: seq<Field>, keys: set<string>, check: (string, Value) -> Option<Fault>)
    returns (k: nat)
    requires FirstFault(fs, keys, check).Some?
    ensures k < |fs| && fs[k].key in keys && FirstFault(fs[..k], keys, check) == None
    ensures FirstFault(fs, keys, check)
         == if ValuesAt(fs[..k], fs[k].key) != [] then Some(Duplicate(fs[k].key)) else check(fs[k].key, fs[k].value)
  {
    var before := fs[..|fs| - 1];
    if FirstFault(before, keys, check) == None {
      k := |fs| - 1;
    } else {
      k := FaultyField(before, keys, check);
      assert fs[..k] == before[..k];
    }
  }

  /** Without a fault every known key has at most one value, and it decodes. */
  lemma {:induction false} FaultlessKey<T>(fs: seq<Field>, keys: set<string>, check: (string, Value) -> Option<Fault>,
                                           key: string, dec: Value -> Decoded<T>)
    requires key in keys && FirstFault(fs, keys, check) == None
    requires forall v :: check(key, v) == FaultOf(key, dec(v))
    ensures Optional(fs, key, dec).Ok?
  {
    if fs == [] {
    } else {
      var before := fs[..|fs| - 1];
      FaultlessKey(before, keys, check, key, dec);
      assert check(key, fs[|fs| - 1].value) == FaultOf(key, dec(fs[|fs| - 1].value));
    }
  }

  /** A key at which the loop stops is bad in the whole record. */
  lemma FaultyKey<T>(fs: seq<Field>, k: nat, keys: set<string>, check: (string, Value) -> Option<Fault>,
                     dec: Value -> Decoded<T>)
    requires k < |fs| && fs[k].key in keys && FirstFault(fs[..k], keys, check) == None
    requires forall v :: check(fs[k].key, v) == FaultOf(fs[k].key, dec(v))
    requires ValuesAt(fs[..k], fs[k].key) != [] || check(fs[k].key, fs[k].value).Some?
    ensures Optional(fs, fs[k].key, dec).Rejected?
  {
    var key := fs[k].key;
    FaultlessKey(fs[..k], keys, check, key, dec);
    OptionalStep(fs, k, key, dec);
    assert check(key, fs[k].value) == FaultOf(key, dec(fs[k].value));
    RejectedStays(fs, k + 1, key, dec);
  }

  lemma KeysDiffer()
    ensures "size" != "data" && "regs" != "msrs" && "device_type" != "state"
  {
    assert "size"[0] != "data"[0] && "regs"[0] != "msrs"[0];
  }

  // ----- The two ways agree -----

  lemma RegionAgrees(fs: seq<Field>)
    ensures RegionInOrder(fs).Ok? <==> RegionFields(fs).Ok?
    ensures RegionFields(fs).Ok? ==> RegionInOrder(fs) == RegionFields(fs)
  {
    hide FirstFault, DecodeU64, DecodeByteList;
    KeysDiffer();
    if FirstFault(fs, REGION_KEYS, RegionCheck).Some? {
      var k := FaultyField(fs, REGION_KEYS, RegionCheck);
      if fs[k].key == "guest_addr" || fs[k].key == "size" {
        FaultyKey(fs, k, REGION_KEYS, RegionCheck, DecodeU64);
      } else {
        FaultyKey(fs, k, REGION_KEYS, RegionCheck, DecodeByteList);
      }
    }
  }

  lemma DeviceAgrees(fs: seq<Field>)
    ensures DeviceInOrder(fs).Ok? <==> DeviceFields(fs).Ok?
    ensures DeviceFields(fs).Ok? ==> DeviceInOrder(fs) == DeviceFields(fs)
  {
    hide FirstFault, DecodeText, DecodeBytes;
    KeysDiffer();
    if FirstFault(fs, DEVICE_KEYS, DeviceCheck).Some? {
      var k := FaultyField(fs, DEVICE_KEYS, DeviceCheck);
      if fs[k].key == "device_type" {
        FaultyKey(fs, k, DEVICE_KEYS, DeviceCheck, DecodeText);
      } else {
        FaultyKey(fs, k, DEVICE_KEYS, DeviceCheck, DecodeBytes);
      }
    }
  }

  lemma VcpuAgrees(fs: seq<Field>)
    ensures VcpuInOrder(fs).Ok? <==> VcpuFields(fs).Ok?
    ensures VcpuFields(fs).Ok? ==> VcpuInOrder(fs) == VcpuFields(fs)
  {
    hide FirstFault, DecodeU32, DecodeRegs, DecodeSregs, DecodeFpu, DecodeMsrs;
    KeysDiffer();
    if FirstFault(fs, VCPU_KEYS, VcpuCheck).Some? {
      var k := FaultyField(fs, VCPU_KEYS, VcpuCheck);
      if fs[k].key == "id" {
        FaultyKey(fs, k, VCPU_KEYS, VcpuCheck, DecodeU32);
      } else if fs[k].key == "regs" {
        FaultyKey(fs, k, VCPU_KEYS, VcpuCheck, DecodeRegs);
      } else if fs[k].key == "sregs" {
        FaultyKey(fs, k, VCPU_KEYS, VcpuCheck, DecodeSregs);
      } else if fs[k].key == "fpu" {
        FaultyKey(fs, k, VCPU_KEYS, VcpuCheck, DecodeFpu);
      } else {
        FaultyKey(fs, k, VCPU_KEYS, VcpuCheck, DecodeMsrs);
      }
    }
  }

  lemma VmAgrees(fs: seq<Field>)
    ensures VmInOrder(fs).Ok? <==> VmFields(fs).Ok?
    ensures VmFields(fs).Ok? ==> VmInOrder(fs) == VmFields(fs)
  {
    hide FirstFault, DecodeRegions, DecodeDevices, DecodeVcpus;
    if FirstFault(fs, VM_KEYS, VmCheck).Some? {
      var k := FaultyField(fs, VM_KEYS, VmCheck);
      if fs[k].key == "memory_regions" {
        FaultyKey(fs, k, VM_KEYS, VmCheck, DecodeRegions);
      } else if fs[k].key == "device_states" {
        FaultyKey(fs, k, VM_KEYS, VmCheck, DecodeDevices);
      } else {
        FaultyKey(fs, k, VM_KEYS, VmCheck, DecodeVcpus);
      }
    }
  }
}
