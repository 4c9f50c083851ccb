/** What a request does, in the numbers that stand in guest memory: its sector, its length, its status. */
module BlockRequests {
  import opened Words
  import opened GuestMemory
  import opened WriteLog
  import opened Virtqueue
  import opened HostFile
  import opened Block
  import opened BlockDisk
  import opened BlockPoints
  import opened BlockSectors

  // ----- The header -----

  /** The eight bytes at an address spell a sector; its low half is the request type. */
  predicate SpellsSector(ram: Image, addr: nat, sector: U64) {
    Fits(ram, addr, 8) && Fetch(ram, addr, 8) == LeBytes(sector, 8)
  }

  lemma HeaderIsRead(ram: Image, d: Descriptor, sector: U64)
    requires SpellsSector(ram, d.addr, sector)
    ensures Offset(ram, d) == (512 * sector) % 0x1_0000_0000_0000_0000
    ensures RequestType(ram, d) == sector % 0x1_0000_0000
  {
    hide ReadThrough, Fits, LeBytes;
    WordSizes();
    LeRoundTrip(sector, 8);
    var s := ReadThrough(ram, d.addr, 8);
    ReadThroughPrefix(ram, d.addr, 8, 4);
    LeValueConcat(s[..4], s[4..]);
    assert s == s[..4] + s[4..];
    LowHalf(LeValue(s[..4]), LeValue(s[4..]));
  }

  lemma LowHalf(low: nat, high: nat)
    requires low < 0x1_0000_0000
    ensures (low + 0x1_0000_0000 * high) % 0x1_0000_0000 == low
  {
  }

  /** Where in the file a request for a sector works: at 512 times the sector, or where it stands if that is refused. */
  function Place(sector: U64, pos: nat, limit: SeekLimit): nat {
    var offset := (512 * sector) % 0x1_0000_0000_0000_0000;
    if offset < limit then offset else pos
  }

  /** All of the descriptor behind its 16-byte header is in guest memory. */
  predicate BufferMapped(ram: Image, d: Descriptor) {
    && 16 <= d.len && d.addr + d.len <= 0x1_0000_0000_0000_0000
    && forall a: nat :: d.addr + 16 <= a < d.addr + d.len ==> a in ram
  }

  lemma WholeBuffer(ram: Image, d: Descriptor)
    requires BufferMapped(ram, d)
    ensures MappedData(ram, d) == DataLen(d) == d.len - 16
  {
    hide MappedPrefix;
  }

  // ----- Every request of every session -----

  /**
   An IN of len bytes for a sector puts len - 16 bytes into guest memory from addr + 16 on: the
   initial disk overlaid with everything written before, from the place of the sector on.  It
   changes nothing else, and the file stands behind what could be read.
   */
  lemma WholeIn(c: Script, t: nat, k: nat, sector: U64)
    requires At(c, t, k).Some?
    requires var p := At(c, t, k).value;
             SpellsSector(p.host.ram, p.desc.addr, sector) && BufferMapped(p.host.ram, p.desc)
    requires sector % 0x1_0000_0000 == 0
    ensures var p := At(c, t, k).value;
            var at, after := Place(sector, p.host.pos, c.drive.limit), StepAt(p, c.drive).host;
            && after.ram.Keys == p.host.ram.Keys
            && (forall a: nat :: a in p.host.ram ==>
                  after.ram[a] == if p.desc.addr + 16 <= a < p.desc.addr + p.desc.len
                                  then Overlaid(c.disk, Writes(p.log), at + (a - p.desc.addr - 16))
                                  else p.host.ram[a])
            && after.disk == p.host.disk
            && after.pos == (if |p.host.disk| <= at then at
                             else if |p.host.disk| < at + p.desc.len - 16 then |p.host.disk|
                             else at + p.desc.len - 16)
  {
    hide At, Writes, Overlaid, Offset, RequestType, MappedData;
    var p := At(c, t, k).value;
    HeaderIsRead(p.host.ram, p.desc, sector);
    WholeBuffer(p.host.ram, p.desc);
    EveryInDelivers(c, t, k);
    InMovesPosition(p, c.drive);
  }

  lemma InMovesPosition(p: Point, drive: Drive)
    requires Asks(p, T_IN)
    ensures StepAt(p, drive).host.pos == Target(p, drive) + Readable(p.host.disk, Target(p, drive), DataLen(p.desc))
  {
    hide Offset, RequestType, ReadAt, WriteThrough, Readable;
  }

  /**
   An OUT of len bytes for a sector puts the len - 16 bytes of guest memory from addr + 16 on
   at the place of the sector, over the initial disk overlaid with everything written before.
   The file grows to hold them and stands behind them; guest memory does not change.
   */
  lemma WholeOut(c: Script, t: nat, k: nat, sector: U64)
    requires At(c, t, k).Some? && !c.drive.readOnly
    requires var p := At(c, t, k).value;
             SpellsSector(p.host.ram, p.desc.addr, sector) && BufferMapped(p.host.ram, p.desc)
    requires sector % 0x1_0000_0000 == 1
    ensures var p := At(c, t, k).value;
            var at, after := Place(sector, p.host.pos, c.drive.limit), StepAt(p, c.drive).host;
            && (forall i: nat :: View(after.disk, i) ==
                  if at <= i < at + p.desc.len - 16 then p.host.ram[p.desc.addr + 16 + (i - at)]
                  else Overlaid(c.disk, Writes(p.log), i))
            && after.ram == p.host.ram && after.pos == at + p.desc.len - 16
            && |after.disk| == (if p.desc.len > 16 && |p.host.disk| < at + p.desc.len - 16 then at + p.desc.len - 16
                                else |p.host.disk|)
  {
    hide At, Writes, Overlaid, Offset, RequestType, MappedData, View;
    var p := At(c, t, k).value;
    HeaderIsRead(p.host.ram, p.desc, sector);
    WholeBuffer(p.host.ram, p.desc);
    EveryOutIsWritten(c, t, k);
    OutMovesPosition(p, c.drive);
  }

  lemma OutMovesPosition(p: Point, drive: Drive)
    requires Asks(p, T_OUT) && !drive.readOnly
    ensures var after, at := StepAt(p, drive).host, Target(p, drive);
            && after.pos == at + DataLen(p.desc)
            && |after.disk| == (if DataLen(p.desc) > 0 && |p.host.disk| < at + DataLen(p.desc)
                                then at + DataLen(p.desc) else |p.host.disk|)
  {
    hide Offset, RequestType, ReadThrough;
  }

  /** A descriptor of less than 16 bytes moves nothing either way. */
  lemma ShortRequestMovesNothing(p: Point, drive: Drive)
    requires p.desc.len < 16
    ensures StepAt(p, drive).host.ram == p.host.ram && StepAt(p, drive).host.disk == p.host.disk
  {
    hide Offset, RequestType;
    assert ReadAt(p.host.disk, Target(p, drive), 0) == [];
    NothingStored(p.host.ram, p.desc.addr + 16);
  }

  lemma NothingStored(m: Image, a: nat)
    ensures WriteThrough(m, a, []) == m
  {
    assert forall x :: x in m ==> WriteThrough(m, a, [])[x] == m[x];
  }

  /** A request that is neither IN nor OUT, or an OUT to a read-only disk, leaves disk, position and memory alone. */
  lemma OtherRequestsMoveNothing(p: Point, drive: Drive)
    requires !Asks(p, 0) && (!Asks(p, 1) || drive.readOnly)
    ensures StepAt(p, drive).host == p.host
  {
    hide Offset, RequestType, Fits;
  }

  // ----- When the reporting form fails -----

  /**
   The reporting form fails exactly when the type cannot be read; or, for IN and OUT, when the
   sector cannot be read, its offset is refused, or the buffer behind the header is not in guest
   memory; or when an IN reaches past the end of the disk.
   */
  lemma StrictStepFailsExactly(h: Host, d: Descriptor, drive: Drive)
    ensures var n, offset := if d.len < 16 then 0 else d.len - 16, Offset(h.ram, d);
            StrictStep(h, d, drive).verdict.Fail?
            <==> || !Fits(h.ram, d.addr, 4)
                 || ((RequestType(h.ram, d) == 0 || (RequestType(h.ram, d) == 1 && !drive.readOnly))
                     && (!Fits(h.ram, d.addr, 8) || offset >= drive.limit || d.addr + 16 >= 0x1_0000_0000_0000_0000
                         || !Fits(h.ram, d.addr + 16, n)))
                 || (RequestType(h.ram, d) == 0 && n > 0 && |h.disk| < offset + n)
  {
    hide Fits, RequestType, Offset, WriteThrough, ReadThrough, ReadAt, WriteAt;
  }

  /**
   What a failing request leaves behind: the disk as it was; the file where it stood if the sector
   could not be read or was refused, else behind what an IN could read, or at the sector for an
   OUT; and guest memory as it was, except that an IN that read all it wanted fills what is mapped.
   */
  lemma StrictFailureLeaves(h: Host, d: Descriptor, drive: Drive)
    requires StrictStep(h, d, drive).verdict.Fail?
    ensures var s, n, at := StrictStep(h, d, drive).host, if d.len < 16 then 0 else d.len - 16, Offset(h.ram, d);
            && s.disk == h.disk
            && s.pos == (if !Fits(h.ram, d.addr, 8) || at >= drive.limit then h.pos
                         else if RequestType(h.ram, d) == 1 || |h.disk| <= at then at
                         else if |h.disk| < at + n then |h.disk|
                         else at + n)
            && s.ram == (if Fits(h.ram, d.addr, 8) && at < drive.limit && RequestType(h.ram, d) == 0
                            && (n == 0 || at + n <= |h.disk|) && d.addr + 16 < 0x1_0000_0000_0000_0000
                         then WriteThrough(h.ram, d.addr + 16, ReadAt(h.disk, at, n))
                         else h.ram)
  {
    hide RequestType, Offset, WriteThrough, ReadThrough, ReadAt, WriteAt, Fits;
    if Fits(h.ram, d.addr, 8) {
      FewerFit(h.ram, d.addr);
    }
  }

  lemma FewerFit(m: Image, a: nat)
    requires Fits(m, a, 8)
    ensures Fits(m, a, 4)
  {
  }

  predicate StrictlyFailsAt(h: Host, w: Walk, seen: seq<Image>, drive: Drive, k: nat) {
    && Reached(h, [], w, seen, drive, k).Some?
    && var p := Reached(h, [], w, seen, drive, k).value; StrictStep(p.host, p.desc, drive).verdict.Fail?
  }

  /** On a chain it fails exactly when the chain, served by the other form, reaches a request on which it fails. */
  lemma {:induction false} StrictChainFailsExactly(h: Host, w: Walk, seen: seq<Image>, drive: Drive)
    ensures StrictChain(h, w, seen, drive).verdict.Fail? <==> exists k: nat :: StrictlyFailsAt(h, w, seen, drive, k)
    decreases w.limit - |seen|
  {
    hide StrictStep, LaxStep;
    var d := NextOf(w, seen, h.ram);
    if d.None? {
    } else {
      var s, now := StrictStep(h, d.value, drive), seen + [h.ram];
      assert StrictlyFailsAt(h, w, seen, drive, 0) <==> s.verdict.Fail?;
      if !s.verdict.Fail? {
        StepsAgree(h, d.value, drive);
        if s.verdict.Continue? {
          StrictChainFailsExactly(s.host, w, now, drive);
          forall k: nat
            ensures StrictlyFailsAt(h, w, seen, drive, k + 1) <==> StrictlyFailsAt(s.host, w, now, drive, k)
          {
            ReachedAlike(s.host, [] + s.events, [], w, now, drive, k);
          }
          assert forall k: nat :: StrictlyFailsAt(h, w, seen, drive, k) ==>
                   k > 0 && StrictlyFailsAt(s.host, w, now, drive, k - 1);
        } else {
          assert forall k: nat :: StrictlyFailsAt(h, w, seen, drive, k) ==> k == 0;
        }
      }
    }
  }

  // ----- Statuses -----

  predicate UnreadableAt(h: Host, w: Walk, drive: Drive, k: nat) {
    && Reached(h, [], w, [], drive, k).Some?
    && var p := Reached(h, [], w, [], drive, k).value; !Fits(p.host.ram, p.desc.addr, 4)
  }

  /**
   How a chain ends: with an error exactly when it reaches a request whose type cannot be read,
   with 1 when it reaches an OUT on a read-only disk, with 2 when it reaches a type other than
   0, 1 and 4, and with 0 otherwise.
   */
  lemma ChainStatus(h: Host, w: Walk, drive: Drive)
    ensures var v := LaxChain(h, w, [], drive).verdict;
            && (v == Fail <==> exists k: nat :: UnreadableAt(h, w, drive, k))
            && (v == Finish(1) <==> drive.readOnly && exists k: nat :: TypeAt(h, w, drive, k) == Some(1))
            && (v == Finish(2) <==> exists k: nat :: OddTypeAt(h, w, drive, k))
            && (v != Fail && v != Finish(1) && v != Finish(2) ==> v == Finish(0))
  {
    hide LaxChain, TypeAt, StopsAt, UnreadableAt;
    ChainStopsExactly(h, w, [], drive, Fail);
    forall k: nat
      ensures StopsAt(h, w, [], drive, k, Fail) <==> UnreadableAt(h, w, drive, k)
    {
      FailIsUnreadable(h, w, drive, k);
    }
    StatusExactly(h, w, drive);
    assert forall k: nat :: Unsupported(TypeAt(h, w, drive, k)) <==> OddTypeAt(h, w, drive, k);
    VerdictIsOneOfFour(h, w, [], drive);
  }

  predicate OddTypeAt(h: Host, w: Walk, drive: Drive, k: nat) {
    TypeAt(h, w, drive, k).Some? && TypeAt(h, w, drive, k).value !in {0, 1, 4}
  }

  lemma FailIsUnreadable(h: Host, w: Walk, drive: Drive, k: nat)
    ensures StopsAt(h, w, [], drive, k, Fail) <==> UnreadableAt(h, w, drive, k)
  {
    hide Reached, Fits, RequestType, ReadThrough, WriteThrough, WriteAt, ReadAt, Offset;
  }

  lemma {:induction false} VerdictIsOneOfFour(h: Host, w: Walk, seen: seq<Image>, drive: Drive)
    ensures LaxChain(h, w, seen, drive).verdict in {Fail, Finish(0), Finish(1), Finish(2)}
    decreases w.limit - |seen|
  {
    hide Fits, RequestType, ReadThrough, WriteThrough, WriteAt, ReadAt, Offset;
    var d := NextOf(w, seen, h.ram);
    if d.None? {
    } else {
      VerdictIsOneOfFour(LaxStep(h, d.value, drive).host, w, seen + [h.ram], drive);
    }
  }

  // ----- A pass over the queue -----

  /** The host before chain i of a pass that gets there. */
  function PassHost(h: Host, avail: seq<ChainOf<Walk>>, drive: Drive, i: nat): Host
    requires i <= |avail|
    decreases i
  {
    if i == 0 then h else PassHost(LaxChain(h, avail[0].descs, [], drive).host, avail[1..], drive, i - 1)
  }

  /** How chain i of a pass ends. */
  function PassVerdict(h: Host, avail: seq<ChainOf<Walk>>, drive: Drive, i: nat): Verdict
    requires i < |avail|
  {
    LaxChain(PassHost(h, avail, drive, i), avail[i].descs, [], drive).verdict
  }

  /**
   A pass gives each chain back with its status as the length; it succeeds exactly when every
   chain ends with a status and its head is a descriptor of the queue.
   */
  lemma {:induction false} PassReports(h: Host, avail: seq<ChainOf<Walk>>, size: nat, drive: Drive)
    ensures var p := QueuePass(h, avail, size, drive);
            && (p.outcome == Done || p.outcome == Failed) && |p.used| <= |avail|
            && (p.outcome.Done? <==>
                  forall i: nat :: i < |avail| ==> PassVerdict(h, avail, drive, i).Finish? && avail[i].head < size)
            && (forall i: nat :: i < |p.used| ==>
                  && PassVerdict(h, avail, drive, i).Finish?
                  && p.used[i] == UsedElem(avail[i].head, PassVerdict(h, avail, drive, i).status))
    decreases |avail|
  {
    hide LaxChain;
    if |avail| == 0 {
    } else {
      var s := LaxChain(h, avail[0].descs, [], drive);
      assert PassVerdict(h, avail, drive, 0) == s.verdict;
      if s.verdict.Finish? && avail[0].head < size {
        PassReports(s.host, avail[1..], size, drive);
        assert forall i: nat :: i + 1 < |avail| ==>
                 PassVerdict(h, avail, drive, i + 1) == PassVerdict(s.host, avail[1..], drive, i);
        var rest := QueuePass(s.host, avail[1..], size, drive);
        forall i: nat | 0 < i < |avail|
          ensures PassVerdict(h, avail, drive, i) == PassVerdict(s.host, avail[1..], drive, i - 1)
        {
        }
      }
    }
  }
}
