/** snapshot.rs, `create_snapshot` and `restore_snapshot`, and the whole way from one machine to another. */
module Snapshot {
  import opened Words
  import opened GuestMemory
  import opened WriteLog
  import opened MemoryLayout
  import opened SnapshotMemory
  import opened Records
  import opened RecordTheorems

  /** A vCPU with the register images KVM holds for it. */
  datatype Vcpu = Vcpu(id: U64, regs: RegsImage, sregs: SregsImage, fpu: FpuImage)

  /** `save_vcpu_state`: the id is cut to 32 bits and no MSRs are collected. */
  function StateOf(c: Vcpu): VcpuState {
    VcpuState(c.id % U32_LIMIT, c.regs, c.sregs, c.fpu, [])
  }

  function StatesOf(cpus: seq<Vcpu>): (states: seq<VcpuState>)
    ensures |states| == |cpus|
  {
    seq(|cpus|, i requires 0 <= i < |cpus| => StateOf(cpus[i]))
  }

  /** `restore_vcpu_state`. */
  function Loaded(c: Vcpu, state: VcpuState): Vcpu {
    c.(regs := state.regs, sregs := state.sregs, fpu := state.fpu)
  }

  /** The same when KVM refuses one of the three blocks: only the first n of them are set. */
  function LoadedPart(c: Vcpu, state: VcpuState, n: nat): Vcpu {
    if n >= 3 then Loaded(c, state)
    else if n == 2 then c.(regs := state.regs, sregs := state.sregs)
    else if n == 1 then c.(regs := state.regs)
    else c
  }

  /** The first of n vCPUs for which KVM refuses a block, or n; sets gives how many blocks it accepts for each. */
  function FirstRefused(sets: nat -> nat, n: nat): (k: nat)
    ensures k <= n && (k < n ==> sets(k) < 3)
    ensures forall i: nat :: i < k ==> sets(i) >= 3
  {
    if n == 0 then 0
    else
      var k := FirstRefused(sets, n - 1);
      if k < n - 1 || sets(n - 1) < 3 then k else n
  }

  /** vCPUs are matched by position; states without a vCPU and vCPUs without a state are passed over. */
  function LoadedAll(cpus: seq<Vcpu>, states: seq<VcpuState>): (r: seq<Vcpu>)
    ensures |r| == |cpus|
  {
    seq(|cpus|, i requires 0 <= i < |cpus| => if i < |states| then Loaded(cpus[i], states[i]) else cpus[i])
  }

  ghost function SnapshotOf(m: Image, layout: seq<Region>, cpus: seq<Vcpu>): VmState
    requires ValidLayout(layout) && Maps(layout, m)
  {
    VmState(Saved(m, layout), StatesOf(cpus), [])
  }

  /** `create_snapshot`; gives says for each vCPU whether KVM gives out its registers. */
  method CreateSnapshot(manager: SnapshotManager, cpus: array<Vcpu>, gives: nat -> bool) returns (ok: bool, vm: VmState)
    requires manager.Valid()
    ensures ok <==> forall k: nat :: k < cpus.Length ==> gives(k)
    ensures ok ==> vm == SnapshotOf(manager.ram.bytes, manager.layout, cpus[..])
    ensures ok ==>
              && |vm.vcpuStates| == cpus.Length && vm.deviceStates == []
              && forall k: nat :: k < cpus.Length ==>
                   var c := cpus[k];
                   vm.vcpuStates[k] == VcpuState(c.id % 0x1_0000_0000, c.regs, c.sregs, c.fpu, [])
  {
    var saved, regions := manager.SaveMemory();
    var states := [];
    for k := 0 to cpus.Length
      invariant states == StatesOf(cpus[..k])
      invariant forall i: nat :: i < k ==> gives(i)
    {
      if !gives(k) { return false, VmState([], [], []); }
      states := states + [StateOf(cpus[k])];
    }
    assert cpus[..cpus.Length] == cpus[..];
    ok, vm := saved, VmState(regions, states, []);
  }

  /**
   `restore_snapshot`.  Memory comes first; vCPUs are loaded only if all of it was restored.  The
   first vCPU for which KVM refuses a block keeps what was set before, and those after it are untouched.
   */
  method RestoreSnapshot(manager: SnapshotManager, vm: VmState, cpus: array<Vcpu>, sets: nat -> nat)
    returns (outcome: Outcome)
    requires manager.Valid()
    modifies manager.ram, cpus
    ensures manager.Valid()
    ensures var memory := Restore(old(manager.ram.bytes), manager.layout, vm.memoryRegions);
            && manager.ram.bytes == memory.image
            && (!memory.outcome.Done? ==> outcome == memory.outcome && cpus[..] == old(cpus[..]))
            && (memory.outcome.Done? ==>
                  var n := Min(cpus.Length, |vm.vcpuStates|);
                  var k := FirstRefused(sets, n);
                  && outcome == (if k < n then Failed else Done)
                  && (outcome.Done? ==> cpus[..] == LoadedAll(old(cpus[..]), vm.vcpuStates))
                  && (forall i: nat :: i < cpus.Length ==>
                        cpus[i] == if i < k then Loaded(old(cpus[i]), vm.vcpuStates[i])
                                   else if i == k < n then LoadedPart(old(cpus[i]), vm.vcpuStates[i], sets(i))
                                   else old(cpus[i])))
  {
    outcome := manager.RestoreMemory(vm.memoryRegions);
    if outcome != Done { return; }
    ghost var n := Min(cpus.Length, |vm.vcpuStates|);
    ghost var first := FirstRefused(sets, n);
    for k := 0 to |vm.vcpuStates|
      invariant manager.Valid()
      invariant manager.ram.bytes == Restore(old(manager.ram.bytes), manager.layout, vm.memoryRegions).image
      invariant forall i: nat :: i < k && i < n ==> sets(i) >= 3
      invariant forall i :: 0 <= i < cpus.Length ==>
                  cpus[i] == if i < k then Loaded(old(cpus[i]), vm.vcpuStates[i]) else old(cpus[i])
    {
      if k < cpus.Length {
        cpus[k] := LoadedPart(cpus[k], vm.vcpuStates[k], sets(k));
        if sets(k) < 3 { return Failed; }
      }
    }
  }

  /** The three register blocks are set in order: general registers, then special ones, then the FPU. */
  lemma LoadedPartExactly(c: Vcpu, state: VcpuState, n: nat)
    ensures var r := LoadedPart(c, state, n);
            && r.id == c.id
            && r.regs == (if n >= 1 then state.regs else c.regs)
            && r.sregs == (if n >= 2 then state.sregs else c.sregs)
            && r.fpu == (if n >= 3 then state.fpu else c.fpu)
  {
  }

  lemma FreshStatesAreNormal(cpus: seq<Vcpu>)
    ensures NormalizedAll(StatesOf(cpus)) == StatesOf(cpus)
  {
    forall i | 0 <= i < |cpus|
      ensures NormalizedAll(StatesOf(cpus))[i] == StatesOf(cpus)[i]
    {
      assert ClearReserved([]) == [];
    }
  }

  lemma LoadedRegisters(cpus: seq<Vcpu>, others: seq<Vcpu>)
    ensures forall i :: 0 <= i < |cpus| && i < |others| ==>
              LoadedAll(others, StatesOf(cpus))[i] == cpus[i].(id := others[i].id)
    ensures forall i :: |cpus| <= i < |others| ==> LoadedAll(others, StatesOf(cpus))[i] == others[i]
  {
  }

  /**
   A snapshot of one machine, written as JSON, read back and restored onto another machine with
   the same memory layout, succeeds; it reproduces every byte of memory and the registers of
   every vCPU the two have in common, and leaves further vCPUs alone.
   */
  lemma SnapshotTravels(m: Image, other: Image, layout: seq<Region>, cpus: seq<Vcpu>, others: seq<Vcpu>)
    requires ValidLayout(layout) && Maps(layout, m) && Maps(layout, other)
    ensures var vm := DecodeVm(AsJson(EncodeVm(SnapshotOf(m, layout, cpus))));
            && vm.Ok?
            && Restore(other, layout, vm.value.memoryRegions) == Report(Done, m)
            && (forall i :: 0 <= i < |cpus| && i < |others| ==>
                  LoadedAll(others, vm.value.vcpuStates)[i] == cpus[i].(id := others[i].id))
            && (forall i :: |cpus| <= i < |others| ==> LoadedAll(others, vm.value.vcpuStates)[i] == others[i])
  {
    hide AsJson, DecodeVm, EncodeVm, Saved;
    var vm := SnapshotOf(m, layout, cpus);
    JsonRoundTrip(vm);
    FreshStatesAreNormal(cpus);
    SaveThenRestore(m, other, layout);
    LoadedRegisters(cpus, others);
  }
}
