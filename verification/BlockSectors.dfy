/**
 Which parts of the disk requests can reach.  The request type and the sector are read from the
 same address, so the low half of the sector is the request type.
 */
module BlockSectors {
  import opened Words
  import opened GuestMemory
  import opened Virtqueue
  import opened HostFile
  import opened Block
  import opened BlockDisk
  import opened BlockPoints

  /** 512 * 2^32: how far apart sectors with the same low half are. */
  const STRIDE: nat := 0x200_0000_0000

  // ----- The shape of an offset -----

  lemma ReadThroughPrefix(m: Image, addr: nat, n: nat, k: nat)
    requires k <= n
    ensures ReadThrough(m, addr, n)[..k] == ReadThrough(m, addr, k)
  {
    var p, q := MappedPrefix(m, addr, n), MappedPrefix(m, addr, k);
    assert q == if p < k then p else k by {
      assert q < k ==> addr + q !in m;
      assert p < n ==> addr + p !in m;
    }
  }

  lemma WrapKeepsResidue(low: nat, high: nat)
    requires low < STRIDE
    ensures ((low + STRIDE * high) % U64_LIMIT) % STRIDE == low
  {
    var y := low + STRIDE * high;
    var q := y / U64_LIMIT;
    assert y % U64_LIMIT == low + STRIDE * (high - 0x80_0000 * q);
  }

  /**
   Even under 64-bit wrap-around, and even when the sector runs off mapped memory, an offset is
   512 times the request type modulo 2^41: 0 for IN and 512 for OUT.
   */
  lemma OffsetIsTypeTimes512(ram: Image, d: Descriptor)
    ensures Offset(ram, d) % STRIDE == BLOCK_SIZE * RequestType(ram, d)
  {
    var s := ReadThrough(ram, d.addr, 8);
    ReadThroughPrefix(ram, d.addr, 8, 4);
    LeValueConcat(s[..4], s[4..]);
    assert s == s[..4] + s[4..];
    WordSizes();
    var low, high := RequestType(ram, d), LeValue(s[4..]);
    assert LeValue(s) == low + U32_LIMIT * high;
    assert LeValue(s) * BLOCK_SIZE == BLOCK_SIZE * low + STRIDE * high;
    WrapKeepsResidue(BLOCK_SIZE * low, high);
  }

  /** Only a refused seek moves an access away from the offset asked for, which is 0 or 512 modulo 2^41. */
  predicate WellAimed(e: Event, drive: Drive) {
    && e.asked % STRIDE == (if e.Wrote? then BLOCK_SIZE else 0)
    && |e.data| < U32_LIMIT
    && (e.asked < drive.limit ==> e.at == e.asked)
  }

  lemma StepIsWellAimed(h: Host, d: Descriptor, drive: Drive)
    ensures forall e :: e in LaxStep(h, d, drive).events ==> WellAimed(e, drive)
  {
    hide ReadThrough, WriteThrough, ReadAt, WriteAt, Fits, LeValue, Zeros, RequestType, Offset;
    OffsetIsTypeTimes512(h.ram, d);
  }

  lemma SessionIsWellAimed(c: Script)
    ensures forall e :: e in Served(c).events ==> WellAimed(e, c.drive)
  {
    hide ReachedIn, Serve, WellAimed, LaxStep;
    forall e | e in Served(c).events
      ensures WellAimed(e, c.drive)
    {
      var t, k := Maker(c, e);
      StepIsWellAimed(At(c, t, k).value.host, At(c, t, k).value.desc, c.drive);
    }
  }

  /** Every entry in the log of a session comes from a request of it. */
  lemma Maker(c: Script, e: Event) returns (t: nat, k: nat)
    requires e in Served(c).events
    ensures At(c, t, k).Some? && e in StepAt(At(c, t, k).value, c.drive).events
  {
    hide ReachedIn, Serve, StepAt, Accounted;
    var es := Served(c).events;
    var m :| 0 <= m < |es| && es[m] == e;
    assert [] + es == es;
    t, k := SessionMaker(c.disk, c.pos, [], c.turns, c.drive, m);
    PointInSession(c, t, k);
    var p := At(c, t, k).value;
    assert LogAfter(p, c.drive)[m] == StepAt(p, c.drive).events[m - |p.log|];
  }

  // ----- The first sector -----

  /** The request at p is an OUT that writes something although its seek is refused. */
  predicate Strays(p: Point, drive: Drive) {
    && Asks(p, T_OUT) && !drive.readOnly && DataLen(p.desc) > 0
    && Offset(p.host.ram, p.desc) >= drive.limit
  }

  /**
   Bytes at 0 to 511 modulo 2^41 are out of reach of an accepted seek: a request writes to such
   a byte if and only if its seek is refused and the byte is among those from the old position on.
   */
  lemma ProtectedByteExactly(p: Point, drive: Drive, i: nat)
    requires i % STRIDE < BLOCK_SIZE
    ensures WritesTo(p, drive, i) <==> Strays(p, drive) && p.host.pos <= i < p.host.pos + DataLen(p.desc)
  {
    hide Fits, RequestType, Offset;
    OffsetIsTypeTimes512(p.host.ram, p.desc);
    if Asks(p, T_OUT) && Offset(p.host.ram, p.desc) < drive.limit {
      AcceptedSeekMisses(Offset(p.host.ram, p.desc), DataLen(p.desc), i);
    }
  }

  lemma AcceptedSeekMisses(at: nat, n: nat, i: nat)
    requires at % STRIDE == BLOCK_SIZE && n < U32_LIMIT && i % STRIDE < BLOCK_SIZE
    ensures !(at <= i < at + n)
  {
    var k := at / STRIDE;
    assert at == STRIDE * k + BLOCK_SIZE;
  }

  predicate WritesFirstSector(p: Point, drive: Drive) {
    exists i: nat :: i < BLOCK_SIZE && WritesTo(p, drive, i)
  }

  /**
   A request writes into the first sector if and only if it is a non-empty OUT whose seek is
   refused while the file stands in that sector, where it starts out: the refusal is ignored and
   the data lands at the old position.
   */
  lemma TouchesFirstSectorExactly(p: Point, drive: Drive)
    ensures WritesFirstSector(p, drive) <==> Strays(p, drive) && p.host.pos < BLOCK_SIZE
  {
    hide WritesTo, Strays;
    if i: nat :| i < BLOCK_SIZE && WritesTo(p, drive, i) {
      ProtectedByteExactly(p, drive, i);
    } else if Strays(p, drive) && p.host.pos < BLOCK_SIZE {
      ProtectedByteExactly(p, drive, p.host.pos);
      StrayIsNotEmpty(p, drive);
    }
  }

  lemma StrayIsNotEmpty(p: Point, drive: Drive)
    requires Strays(p, drive)
    ensures DataLen(p.desc) > 0
  {
  }

  /** Descriptor (t, k) of the session is reached, and strays over byte i. */
  predicate StraysOver(c: Script, t: nat, k: nat, i: nat) {
    && At(c, t, k).Some? && Strays(At(c, t, k).value, c.drive)
    && At(c, t, k).value.host.pos <= i < At(c, t, k).value.host.pos + DataLen(At(c, t, k).value.desc)
  }

  /** Some write of the session covers byte i. */
  predicate Written(c: Script, i: nat) {
    exists e :: e in Served(c).events && e.Wrote? && e.Covers(i)
  }

  /** A byte is written exactly when some request writes to it. */
  lemma WrittenExactly(c: Script, i: nat)
    ensures Written(c, i) <==> exists t: nat, k: nat :: !NoWriteAt(c, t, k, i)
  {
    hide ReachedIn, Serve, WritesTo, StepAt;
    if e :| e in Served(c).events && e.Wrote? && e.Covers(i) {
      var t, k := Maker(c, e);
      WriteIsLogged(At(c, t, k).value, c.drive, i);
      assert !NoWriteAt(c, t, k, i);
    }
    if t: nat, k: nat :| !NoWriteAt(c, t, k, i) {
      var p := At(c, t, k).value;
      WriteIsLogged(p, c.drive, i);
      var e :| e in StepAt(p, c.drive).events && e.Wrote? && e.Covers(i);
      PointInSession(c, t, k);
      assert e in LogAfter(p, c.drive);
    }
  }

  /**
   Over a whole session, with guest memory arbitrary before each chain: a byte at 0 to 511 modulo
   2^41 is written if and only if some request strays over it.
   */
  lemma ProtectedByteWrittenExactly(c: Script, i: nat)
    requires i % STRIDE < BLOCK_SIZE
    ensures Written(c, i) <==> exists t: nat, k: nat :: StraysOver(c, t, k, i)
  {
    hide At, Written, WritesTo, Strays;
    WrittenExactly(c, i);
    forall t: nat, k: nat
      ensures NoWriteAt(c, t, k, i) <==> !StraysOver(c, t, k, i)
    {
      if At(c, t, k).Some? {
        ProtectedByteExactly(At(c, t, k).value, c.drive, i);
      }
    }
  }

  /** Descriptor (t, k) of the session is reached, and strays while the file stands in the first sector. */
  predicate StraysAt(c: Script, t: nat, k: nat) {
    At(c, t, k).Some? && Strays(At(c, t, k).value, c.drive) && At(c, t, k).value.host.pos < BLOCK_SIZE
  }

  /** The first sector is written if and only if some request strays while the file stands in it. */
  lemma FirstSectorWrittenExactly(c: Script)
    ensures (exists i: nat :: i < BLOCK_SIZE && Written(c, i)) <==> exists t: nat, k: nat :: StraysAt(c, t, k)
  {
    hide At, Written;
    if i: nat :| i < BLOCK_SIZE && Written(c, i) {
      ProtectedByteWrittenExactly(c, i);
      var t: nat, k: nat :| StraysOver(c, t, k, i);
      assert StraysAt(c, t, k);
    }
    if t: nat, k: nat :| StraysAt(c, t, k) {
      var i := At(c, t, k).value.host.pos;
      ProtectedByteWrittenExactly(c, i);
      assert StraysOver(c, t, k, i);
    }
  }

  /** A session in which no request strays over a protected byte leaves it as it was. */
  lemma FirstSectorIsSafe(c: Script, i: nat)
    requires i % STRIDE < BLOCK_SIZE
    requires forall t: nat, k: nat :: !StraysOver(c, t, k, i)
    ensures View(Served(c).disk, i) == View(c.disk, i)
  {
    hide Serve, View, StraysOver;
    ProtectedByteWrittenExactly(c, i);
    var es := Served(c).events;
    UnwrittenByte(es, i);
    ServeIsCoherent(c.disk, c.pos, c.turns, c.drive);
    DiskIsOverlaid(c.disk, Writes(es), i);
  }

  // ----- It can be hit -----

  /** An OUT of one byte naming sector 2^54 + 1, the header in the first 16 bytes. */
  const STRAY: seq<Byte> := [1, 0, 0, 0, 0, 0, 0x40, 0, 0, 0, 0, 0, 0, 0, 0, 0, 7]

  function StrayRam(): Image {
    map a: nat | a < 17 :: STRAY[a]
  }

  const STRAY_DESC: Descriptor := Descriptor(0, 17, false)

  function StrayWalk(): Walk {
    Walk(1, (seen: seq<Image>) => Some(STRAY_DESC))
  }

  lemma StrayBytes(at: nat, n: nat)
    requires at < 17 && at + n <= 17
    ensures Fits(StrayRam(), at, n) && ReadThrough(StrayRam(), at, n) == STRAY[at..at + n]
  {
    hide MappedPrefix, ReadThrough;
    assert Fetch(StrayRam(), at, n) == STRAY[at..at + n];
  }

  lemma StrayHeader(drive: Drive)
    ensures RequestType(StrayRam(), STRAY_DESC) == T_OUT
    ensures Offset(StrayRam(), STRAY_DESC) >= drive.limit
  {
    hide ReadThrough, StrayRam, Fits;
    StrayBytes(0, 4);
    StrayBytes(0, 8);
    StrayWords();
  }

  lemma StrayWords()
    ensures LeValue(STRAY[0..4]) == 1
    ensures LeValue(STRAY[0..8]) == 0x40_0000_0000_0001
  {
    hide LeValue;
    assert STRAY[0..4] == [1, 0, 0, 0] && STRAY[4..8] == [0, 0, 0x40, 0];
    assert STRAY[0..8] == STRAY[0..4] + STRAY[4..8];
    LeValueConcat(STRAY[0..4], STRAY[4..8]);
    WordSizes();
    WordOfFour(1, 0, 0, 0);
    WordOfFour(0, 0, 0x40, 0);
  }

  /**
   The first sector is not safe on any disk that may be written, wherever its seeks are refused:
   as the first request after opening, this one overwrites the very first byte.
   */
  lemma FirstSectorCanBeHit(disk: seq<Byte>, drive: Drive)
    requires !drive.readOnly
    ensures Serve(disk, 0, [Turn(StrayRam(), StrayWalk())], drive).disk == WriteAt(disk, 0, [7])
  {
    hide ReadThrough, StrayRam, Fits, RequestType, Offset, WriteAt;
    assert STRAY[16..17] == [7];
    var ram, w := StrayRam(), StrayWalk();
    var h := Host(disk, 0, ram);
    StrayHeader(drive);
    StrayBytes(0, 4);
    StrayBytes(16, 1);
    assert LaxStep(h, STRAY_DESC, drive).host.disk == WriteAt(disk, 0, [7]);
    assert NextOf(w, [], ram) == Some(STRAY_DESC);
    assert LaxChain(h, w, [], drive).host.disk == WriteAt(disk, 0, [7]);
    assert [Turn(ram, w)][1..] == [];
  }

  // ----- How a chain ends, and read-only disks -----

  /** The chain gets as far as descriptor k and stops there with verdict v. */
  predicate StopsAt(h: Host, w: Walk, seen: seq<Image>, drive: Drive, k: nat, v: Verdict) {
    && Reached(h, [], w, seen, drive, k).Some?
    && StepAt(Reached(h, [], w, seen, drive, k).value, drive).verdict == v
  }

  /** Where a chain gets to does not depend on what was logged before it. */
  lemma {:induction false} ReachedAlike(h: Host, log: seq<Event>, log1: seq<Event>, w: Walk, seen: seq<Image>,
                                        drive: Drive, k: nat)
    ensures var p, q := Reached(h, log, w, seen, drive, k), Reached(h, log1, w, seen, drive, k);
            (p.Some? <==> q.Some?) && (p.Some? ==> p.value.host == q.value.host && p.value.desc == q.value.desc)
    decreases k
  {
    hide LaxStep;
    var d := NextOf(w, seen, h.ram);
    if d.None? || k == 0 {
    } else {
      var s := LaxStep(h, d.value, drive);
      ReachedAlike(s.host, log + s.events, log1 + s.events, w, seen + [h.ram], drive, k - 1);
    }
  }

  lemma StopsLater(h: Host, w: Walk, seen: seq<Image>, drive: Drive, k: nat, v: Verdict)
    requires NextOf(w, seen, h.ram).Some?
    requires LaxStep(h, NextOf(w, seen, h.ram).value, drive).verdict.Continue?
    ensures StopsAt(h, w, seen, drive, k + 1, v)
       <==> StopsAt(LaxStep(h, NextOf(w, seen, h.ram).value, drive).host, w, seen + [h.ram], drive, k, v)
  {
    hide LaxStep;
    var s := LaxStep(h, NextOf(w, seen, h.ram).value, drive);
    ReachedAlike(s.host, [] + s.events, [], w, seen + [h.ram], drive, k);
  }

  lemma {:induction false} ChainStopsExactly(h: Host, w: Walk, seen: seq<Image>, drive: Drive, v: Verdict)
    requires v != Continue && v != Finish(S_OK)
    ensures LaxChain(h, w, seen, drive).verdict == v <==> exists k: nat :: StopsAt(h, w, seen, drive, k, v)
    decreases w.limit - |seen|
  {
    hide LaxStep;
    var d := NextOf(w, seen, h.ram);
    if d.None? {
    } else {
      var s, now := LaxStep(h, d.value, drive), seen + [h.ram];
      assert StopsAt(h, w, seen, drive, 0, v) <==> s.verdict == v;
      if s.verdict.Continue? {
        ChainStopsExactly(s.host, w, now, drive, v);
        forall k: nat
          ensures StopsAt(h, w, seen, drive, k + 1, v) <==> StopsAt(s.host, w, now, drive, k, v)
        {
          StopsLater(h, w, seen, drive, k, v);
        }
        assert forall k: nat :: StopsAt(h, w, seen, drive, k, v) ==> k > 0 && StopsAt(s.host, w, now, drive, k - 1, v);
      } else {
        assert forall k: nat :: StopsAt(h, w, seen, drive, k, v) ==> k == 0;
      }
    }
  }

  /** The request type of descriptor k, if the chain gets that far and it can be read. */
  function TypeAt(h: Host, w: Walk, drive: Drive, k: nat): Option<U32> {
    var p := Reached(h, [], w, [], drive, k);
    if p.Some? && Fits(p.value.host.ram, p.value.desc.addr, 4) then Some(RequestType(p.value.host.ram, p.value.desc))
    else None
  }

  predicate Unsupported(t: Option<U32>) {
    t.Some? && t.value !in {T_IN, T_OUT, T_FLUSH}
  }

  /**
   A chain ends with IOERR exactly when the disk is read-only and the chain reaches an OUT, and
   with UNSUPP exactly when it reaches a type other than IN, OUT and FLUSH.
   */
  lemma StatusExactly(h: Host, w: Walk, drive: Drive)
    ensures LaxChain(h, w, [], drive).verdict == Finish(S_IOERR)
       <==> drive.readOnly && exists k: nat :: TypeAt(h, w, drive, k) == Some(T_OUT)
    ensures LaxChain(h, w, [], drive).verdict == Finish(S_UNSUPP)
       <==> exists k: nat :: Unsupported(TypeAt(h, w, drive, k))
  {
    hide LaxChain, StopsAt, TypeAt, Unsupported;
    ChainStopsExactly(h, w, [], drive, Finish(S_IOERR));
    ChainStopsExactly(h, w, [], drive, Finish(S_UNSUPP));
    forall k: nat
      ensures StopsAt(h, w, [], drive, k, Finish(S_IOERR)) <==> drive.readOnly && TypeAt(h, w, drive, k) == Some(T_OUT)
      ensures StopsAt(h, w, [], drive, k, Finish(S_UNSUPP)) <==> Unsupported(TypeAt(h, w, drive, k))
    {
      StopIsByType(h, w, drive, k);
    }
  }

  lemma StopIsByType(h: Host, w: Walk, drive: Drive, k: nat)
    ensures StopsAt(h, w, [], drive, k, Finish(S_IOERR)) <==> drive.readOnly && TypeAt(h, w, drive, k) == Some(T_OUT)
    ensures StopsAt(h, w, [], drive, k, Finish(S_UNSUPP)) <==> Unsupported(TypeAt(h, w, drive, k))
  {
    hide Reached, Fits, RequestType, ReadThrough, WriteThrough, WriteAt, ReadAt, Offset;
  }

  /** A read-only disk never changes, whatever the guest asks for. */
  lemma {:induction false} ReadOnlyDisk(disk: seq<Byte>, pos: nat, turns: seq<Turn>, drive: Drive)
    requires drive.readOnly
    ensures Serve(disk, pos, turns, drive).disk == disk
    decreases |turns|
  {
    hide LaxChain;
    if |turns| == 0 {
    } else {
      var h := Host(disk, pos, turns[0].ram);
      ReadOnlyChain(h, turns[0].walk, [], drive);
      var s := LaxChain(h, turns[0].walk, [], drive);
      ReadOnlyDisk(s.host.disk, s.host.pos, turns[1..], drive);
    }
  }

  lemma {:induction false} ReadOnlyChain(h: Host, w: Walk, seen: seq<Image>, drive: Drive)
    requires drive.readOnly
    ensures LaxChain(h, w, seen, drive).host.disk == h.disk
    decreases w.limit - |seen|
  {
    hide Fits, ReadThrough, WriteThrough, ReadAt, LeValue, RequestType, Offset;
    var d := NextOf(w, seen, h.ram);
    if d.None? {
    } else {
      ReadOnlyChain(LaxStep(h, d.value, drive).host, w, seen + [h.ram], drive);
    }
  }
}
