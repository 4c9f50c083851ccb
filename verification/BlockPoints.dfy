/**
 The points of a session at which a request is served, and what each request does to guest
 memory and to the disk, whatever was served before it.
 */
module BlockPoints {
  import opened Words
  import opened GuestMemory
  import opened WriteLog
  import opened Virtqueue
  import opened HostFile
  import opened Block
  import opened BlockDisk

  /** A descriptor about to be served, the host at that moment, and everything read and written so far. */
  datatype Point = Point(host: Host, desc: Descriptor, log: seq<Event>)

  /** The k-th descriptor of a chain, if the chain gets that far. */
  function Reached(h: Host, log: seq<Event>, w: Walk, seen: seq<Image>, drive: Drive, k: nat): Option<Point>
    decreases k
  {
    var d := NextOf(w, seen, h.ram);
    if d.None? then None
    else if k == 0 then Some(Point(h, d.value, log))
    else
      var s := LaxStep(h, d.value, drive);
      if s.verdict.Continue? then Reached(s.host, log + s.events, w, seen + [h.ram], drive, k - 1) else None
  }

  /** The k-th descriptor of the t-th chain of a session. */
  function ReachedIn(disk: seq<Byte>, pos: nat, log: seq<Event>, turns: seq<Turn>, drive: Drive, t: nat, k: nat)
    : Option<Point>
    decreases t
  {
    if |turns| == 0 then None
    else
      var h := Host(disk, pos, turns[0].ram);
      if t == 0 then Reached(h, log, turns[0].walk, [], drive, k)
      else
        var s := LaxChain(h, turns[0].walk, [], drive);
        ReachedIn(s.host.disk, s.host.pos, log + s.events, turns[1..], drive, t - 1, k)
  }

  /** A disk as it was opened, and the chains it is to serve. */
  datatype Script = Script(disk: seq<Byte>, pos: nat, turns: seq<Turn>, drive: Drive)

  function Served(c: Script): Session {
    Serve(c.disk, c.pos, c.turns, c.drive)
  }

  function At(c: Script, t: nat, k: nat): Option<Point> {
    ReachedIn(c.disk, c.pos, [], c.turns, c.drive, t, k)
  }

  function StepAt(p: Point, drive: Drive): Step {
    LaxStep(p.host, p.desc, drive)
  }

  /** What is logged once the request at a point has been served. */
  function LogAfter(p: Point, drive: Drive): seq<Event> {
    p.log + StepAt(p, drive).events
  }

  // ----- Points and the log -----

  /** The log so far accounts for the disk. */
  predicate Accounted(disk: seq<Byte>, now: seq<Byte>, log: seq<Event>) {
    now == WriteAll(disk, Writes(log))
  }

  lemma StepAccounted(disk: seq<Byte>, h: Host, log: seq<Event>, d: Descriptor, drive: Drive)
    requires Accounted(disk, h.disk, log)
    ensures var s := LaxStep(h, d, drive); Accounted(disk, s.host.disk, log + s.events)
  {
    hide LaxStep, WriteAll, Writes;
    var s := LaxStep(h, d, drive);
    StepIsCoherent(h, d, drive);
    WritesConcat(log, s.events);
    WriteAllConcat(disk, Writes(log), Writes(s.events));
  }

  lemma ChainAccounted(disk: seq<Byte>, h: Host, log: seq<Event>, w: Walk, drive: Drive)
    requires Accounted(disk, h.disk, log)
    ensures var s := LaxChain(h, w, [], drive); Accounted(disk, s.host.disk, log + s.events)
  {
    hide LaxChain, WriteAll, Writes;
    var s := LaxChain(h, w, [], drive);
    ChainIsCoherent(h, w, [], drive);
    WritesConcat(log, s.events);
    WriteAllConcat(disk, Writes(log), Writes(s.events));
  }

  lemma Regroup<T>(a: seq<T>, b: seq<T>, c: seq<T>)
    ensures (a + b) + c == a + (b + c)
  {
  }

  /** The log at a point of a chain continues the log at its start, and is part of the log of the whole chain. */
  lemma {:induction false} ChainLog(h: Host, log: seq<Event>, w: Walk, seen: seq<Image>, drive: Drive, k: nat)
    requires Reached(h, log, w, seen, drive, k).Some?
    ensures var p := Reached(h, log, w, seen, drive, k).value;
            log <= p.log && LogAfter(p, drive) <= log + LaxChain(h, w, seen, drive).events
    decreases k
  {
    hide LaxStep;
    var s := LaxStep(h, NextOf(w, seen, h.ram).value, drive);
    if k == 0 {
    } else {
      var now := seen + [h.ram];
      ChainLog(s.host, log + s.events, w, now, drive, k - 1);
      Regroup(log, s.events, LaxChain(s.host, w, now, drive).events);
    }
  }

  /** The same over a session. */
  lemma {:induction false} SessionLog(disk: seq<Byte>, pos: nat, log: seq<Event>, turns: seq<Turn>, drive: Drive,
                                      t: nat, k: nat)
    requires ReachedIn(disk, pos, log, turns, drive, t, k).Some?
    ensures var p := ReachedIn(disk, pos, log, turns, drive, t, k).value;
            log <= p.log && LogAfter(p, drive) <= log + Serve(disk, pos, turns, drive).events
    decreases t
  {
    hide LaxChain, LogAfter, Reached;
    var h := Host(disk, pos, turns[0].ram);
    var s := LaxChain(h, turns[0].walk, [], drive);
    Regroup(log, s.events, Serve(s.host.disk, s.host.pos, turns[1..], drive).events);
    if t == 0 {
      ChainLog(h, log, turns[0].walk, [], drive, k);
    } else {
      SessionLog(s.host.disk, s.host.pos, log + s.events, turns[1..], drive, t - 1, k);
    }
  }

  lemma {:induction false} ChainPoint(disk: seq<Byte>, h: Host, log: seq<Event>, w: Walk, seen: seq<Image>,
                                      drive: Drive, k: nat)
    requires Accounted(disk, h.disk, log)
    requires Reached(h, log, w, seen, drive, k).Some?
    ensures var p := Reached(h, log, w, seen, drive, k).value; Accounted(disk, p.host.disk, p.log)
    decreases k
  {
    hide LaxStep, Accounted;
    if k == 0 {
    } else {
      var d := NextOf(w, seen, h.ram).value;
      var s := LaxStep(h, d, drive);
      StepAccounted(disk, h, log, d, drive);
      ChainPoint(disk, s.host, log + s.events, w, seen + [h.ram], drive, k - 1);
    }
  }

  /** At every point of a session the log accounts for the disk. */
  lemma {:induction false} SessionPoint(orig: seq<Byte>, disk: seq<Byte>, pos: nat, log: seq<Event>, turns: seq<Turn>,
                                        drive: Drive, t: nat, k: nat)
    requires Accounted(orig, disk, log)
    requires ReachedIn(disk, pos, log, turns, drive, t, k).Some?
    ensures var p := ReachedIn(disk, pos, log, turns, drive, t, k).value; Accounted(orig, p.host.disk, p.log)
    decreases t
  {
    hide LaxChain, Reached, Accounted;
    var h := Host(disk, pos, turns[0].ram);
    if t == 0 {
      ChainPoint(orig, h, log, turns[0].walk, [], drive, k);
    } else {
      var s := LaxChain(h, turns[0].walk, [], drive);
      ChainAccounted(orig, h, log, turns[0].walk, drive);
      SessionPoint(orig, s.host.disk, s.host.pos, log + s.events, turns[1..], drive, t - 1, k);
    }
  }

  lemma PointInSession(c: Script, t: nat, k: nat)
    requires At(c, t, k).Some?
    ensures var p := At(c, t, k).value;
            && Accounted(c.disk, p.host.disk, p.log)
            && LogAfter(p, c.drive) <= Served(c).events
  {
    hide ReachedIn, LogAfter, Serve;
    SessionPoint(c.disk, c.disk, c.pos, [], c.turns, c.drive, t, k);
    SessionLog(c.disk, c.pos, [], c.turns, c.drive, t, k);
    assert [] + Served(c).events == Served(c).events;
  }

  /** Descriptor (t, k) is served before descriptor (t1, k1). */
  predicate Before(t: nat, k: nat, t1: nat, k1: nat) {
    t < t1 || (t == t1 && k < k1)
  }

  lemma {:induction false} ChainOrder(h: Host, log: seq<Event>, w: Walk, seen: seq<Image>, drive: Drive,
                                      k: nat, k1: nat)
    requires k < k1
    requires Reached(h, log, w, seen, drive, k).Some? && Reached(h, log, w, seen, drive, k1).Some?
    ensures LogAfter(Reached(h, log, w, seen, drive, k).value, drive) <= Reached(h, log, w, seen, drive, k1).value.log
    decreases k
  {
    hide LaxStep;
    var s := LaxStep(h, NextOf(w, seen, h.ram).value, drive);
    if k == 0 {
      ChainLog(s.host, log + s.events, w, seen + [h.ram], drive, k1 - 1);
    } else {
      ChainOrder(s.host, log + s.events, w, seen + [h.ram], drive, k - 1, k1 - 1);
    }
  }

  /** A request served earlier is in the log of every later point. */
  lemma {:induction false} SessionOrder(disk: seq<Byte>, pos: nat, log: seq<Event>, turns: seq<Turn>, drive: Drive,
                                        t: nat, k: nat, t1: nat, k1: nat)
    requires Before(t, k, t1, k1)
    requires ReachedIn(disk, pos, log, turns, drive, t, k).Some?
    requires ReachedIn(disk, pos, log, turns, drive, t1, k1).Some?
    ensures LogAfter(ReachedIn(disk, pos, log, turns, drive, t, k).value, drive)
         <= ReachedIn(disk, pos, log, turns, drive, t1, k1).value.log
    decreases t
  {
    hide LaxChain, LogAfter, Reached;
    var h := Host(disk, pos, turns[0].ram);
    var s := LaxChain(h, turns[0].walk, [], drive);
    if t1 == 0 {
      ChainOrder(h, log, turns[0].walk, [], drive, k, k1);
    } else if t == 0 {
      ChainLog(h, log, turns[0].walk, [], drive, k);
      SessionLog(s.host.disk, s.host.pos, log + s.events, turns[1..], drive, t1 - 1, k1);
    } else {
      SessionOrder(s.host.disk, s.host.pos, log + s.events, turns[1..], drive, t - 1, k, t1 - 1, k1);
    }
  }

  /** Entry m of the log was made by the request at p. */
  predicate Made(p: Point, drive: Drive, m: nat) {
    |p.log| <= m < |LogAfter(p, drive)|
  }

  lemma {:induction false} ChainMaker(h: Host, log: seq<Event>, w: Walk, seen: seq<Image>, drive: Drive, m: nat)
    returns (k: nat)
    requires |log| <= m < |log + LaxChain(h, w, seen, drive).events|
    ensures Reached(h, log, w, seen, drive, k).Some? && Made(Reached(h, log, w, seen, drive, k).value, drive, m)
    decreases w.limit - |seen|
  {
    hide LaxStep;
    var s := LaxStep(h, NextOf(w, seen, h.ram).value, drive);
    if m < |log + s.events| {
      k := 0;
    } else {
      k := ChainMaker(s.host, log + s.events, w, seen + [h.ram], drive, m);
      k := k + 1;
    }
  }

  /** Every entry of the log of a session was made by some request of it. */
  lemma {:induction false} SessionMaker(disk: seq<Byte>, pos: nat, log: seq<Event>, turns: seq<Turn>, drive: Drive,
                                        m: nat)
    returns (t: nat, k: nat)
    requires |log| <= m < |log + Serve(disk, pos, turns, drive).events|
    ensures ReachedIn(disk, pos, log, turns, drive, t, k).Some?
         && Made(ReachedIn(disk, pos, log, turns, drive, t, k).value, drive, m)
    decreases |turns|
  {
    hide LaxChain, Made, Reached;
    var h := Host(disk, pos, turns[0].ram);
    var s := LaxChain(h, turns[0].walk, [], drive);
    if m < |log + s.events| {
      t := 0;
      k := ChainMaker(h, log, turns[0].walk, [], drive, m);
    } else {
      t, k := SessionMaker(s.host.disk, s.host.pos, log + s.events, turns[1..], drive, m);
      t := t + 1;
    }
  }

  /** An entry in the log at a point was made by a request served before that point. */
  lemma MakerBefore(c: Script, t1: nat, k1: nat, m: nat) returns (t: nat, k: nat)
    requires At(c, t1, k1).Some? && m < |At(c, t1, k1).value.log|
    ensures At(c, t, k).Some? && Before(t, k, t1, k1) && Made(At(c, t, k).value, c.drive, m)
    ensures LogAfter(At(c, t, k).value, c.drive)[m] == At(c, t1, k1).value.log[m]
  {
    hide ReachedIn, Serve, StepAt;
    PointInSession(c, t1, k1);
    assert [] + Served(c).events == Served(c).events;
    t, k := SessionMaker(c.disk, c.pos, [], c.turns, c.drive, m);
    PointInSession(c, t, k);
    if Before(t1, k1, t, k) {
      SessionOrder(c.disk, c.pos, [], c.turns, c.drive, t1, k1, t, k);
    }
  }

  // ----- What one request does -----

  predicate Asks(p: Point, reqType: U32) {
    Fits(p.host.ram, p.desc.addr, 4) && RequestType(p.host.ram, p.desc) == reqType
  }

  /** The file position a request works at. */
  function Target(p: Point, drive: Drive): nat {
    SeekTo(p.host.pos, Offset(p.host.ram, p.desc), drive.limit)
  }

  /** How many bytes of the data part, which starts 16 bytes into the descriptor, are in guest memory. */
  function MappedData(ram: Image, d: Descriptor): (n: nat)
    ensures n <= DataLen(d)
    ensures forall a: nat :: d.addr + 16 <= a < d.addr + 16 + n ==> a in ram
  {
    if d.addr + 16 < U64_LIMIT then MappedPrefix(ram, d.addr + 16, DataLen(d)) else 0
  }

  /** Byte j of the payload of an OUT: guest memory as far as it is mapped, zero beyond. */
  function Payload(ram: Image, d: Descriptor, j: nat): Byte {
    if j < MappedData(ram, d) then ram[d.addr + 16 + j] else 0
  }

  /** Guest memory with the mapped data part of d replaced by what a disk shows from at on. */
  predicate Filled(before: Image, d: Descriptor, after: Image, show: nat -> Byte, at: nat) {
    && after.Keys == before.Keys
    && forall a: nat :: a in before ==>
         after[a] == if d.addr + 16 <= a < d.addr + 16 + MappedData(before, d) then show(at + (a - d.addr - 16))
                     else before[a]
  }

  /** An IN puts what the disk shows into the mapped part of its buffer, and changes nothing else. */
  lemma InDelivers(h: Host, d: Descriptor, drive: Drive)
    ensures var s := LaxIn(h, d, drive);
            && Filled(h.ram, d, s.host.ram, i => View(h.disk, i), SeekTo(h.pos, Offset(h.ram, d), drive.limit))
            && s.host.disk == h.disk
  {
    hide Offset, MappedPrefix;
  }

  /** The buffer an OUT fills from guest memory holds its payload. */
  lemma PayloadIsRead(ram: Image, d: Descriptor)
    ensures d.addr + 16 < U64_LIMIT ==>
              forall j: nat :: j < DataLen(d) ==> ReadThrough(ram, d.addr + 16, DataLen(d))[j] == Payload(ram, d, j)
  {
    hide MappedPrefix;
  }

  /** An OUT puts its payload on the disk and leaves the rest of the disk and guest memory alone. */
  lemma OutTakesPayload(h: Host, d: Descriptor, drive: Drive, i: nat)
    ensures var at := SeekTo(h.pos, Offset(h.ram, d), drive.limit);
            View(LaxOut(h, d, drive).host.disk, i) ==
            if at <= i < at + DataLen(d) then Payload(h.ram, d, i - at) else View(h.disk, i)
    ensures LaxOut(h, d, drive).host.ram == h.ram
  {
    hide Offset, MappedPrefix, ReadThrough;
    PayloadIsRead(h.ram, d);
  }

  // ----- What every request of a session does -----

  /**
   Every IN of every session puts into the mapped part of its buffer, from descriptor address +
   16 on, the initial disk overlaid with everything written before it, and changes nothing else.
   */
  lemma EveryInDelivers(c: Script, t: nat, k: nat)
    requires At(c, t, k).Some? && Asks(At(c, t, k).value, T_IN)
    ensures var p := At(c, t, k).value;
            var after := StepAt(p, c.drive).host;
            && Filled(p.host.ram, p.desc, after.ram, i => Overlaid(c.disk, Writes(p.log), i), Target(p, c.drive))
            && after.disk == p.host.disk
  {
    hide LaxIn, LaxOut, View, Overlaid, MappedData, RequestType, Offset, ReachedIn, Serve, Writes, Fits;
    var p := At(c, t, k).value;
    PointInSession(c, t, k);
    InDelivers(p.host, p.desc, c.drive);
    forall i: nat
      ensures View(p.host.disk, i) == Overlaid(c.disk, Writes(p.log), i)
    {
      DiskIsOverlaid(c.disk, Writes(p.log), i);
    }
  }

  /** Every OUT of every session puts its payload over that overlay, at the position it works at. */
  lemma EveryOutIsWritten(c: Script, t: nat, k: nat)
    requires At(c, t, k).Some? && Asks(At(c, t, k).value, T_OUT) && !c.drive.readOnly
    ensures var p := At(c, t, k).value;
            var after, at := StepAt(p, c.drive).host, Target(p, c.drive);
            && (forall i: nat :: View(after.disk, i) ==
                  if at <= i < at + DataLen(p.desc) then Payload(p.host.ram, p.desc, i - at)
                  else Overlaid(c.disk, Writes(p.log), i))
            && after.ram == p.host.ram
  {
    hide LaxIn, LaxOut, View, Overlaid, MappedData, Payload, RequestType, Offset, ReachedIn, Serve, Writes, Fits;
    var p := At(c, t, k).value;
    PointInSession(c, t, k);
    OutTakesPayload(p.host, p.desc, c.drive, 0);
    forall i: nat
      ensures View(StepAt(p, c.drive).host.disk, i) ==
              if Target(p, c.drive) <= i < Target(p, c.drive) + DataLen(p.desc)
              then Payload(p.host.ram, p.desc, i - Target(p, c.drive))
              else Overlaid(c.disk, Writes(p.log), i)
    {
      OutTakesPayload(p.host, p.desc, c.drive, i);
      DiskIsOverlaid(c.disk, Writes(p.log), i);
    }
  }

  // ----- Reads see the latest write -----

  /** The request at p writes to offset x of the disk. */
  predicate WritesTo(p: Point, drive: Drive, x: nat) {
    && Asks(p, T_OUT) && !drive.readOnly
    && Target(p, drive) <= x < Target(p, drive) + DataLen(p.desc)
  }

  /** Exactly the requests that write to an offset log a write that covers it, with their payload. */
  lemma WriteIsLogged(p: Point, drive: Drive, x: nat)
    ensures WritesTo(p, drive, x) <==> exists e :: e in StepAt(p, drive).events && e.Wrote? && e.Covers(x)
    ensures WritesTo(p, drive, x) ==>
              LastByte(Writes(StepAt(p, drive).events), x) == Some(Payload(p.host.ram, p.desc, x - Target(p, drive)))
  {
    hide Offset, MappedPrefix, RequestType, Fits, LaxIn, WriteAt;
    var es := StepAt(p, drive).events;
    if Asks(p, T_OUT) && !drive.readOnly {
      assert es == [es[0]] && es[0].Wrote? && es[0].at == Target(p, drive) && |es[0].data| == DataLen(p.desc);
      assert es[1..] == [];
      assert Writes(es) == [Write(es[0].at, es[0].data)];
    } else {
      StepWithoutWrite(p, drive);
    }
  }

  lemma StepWithoutWrite(p: Point, drive: Drive)
    requires !(Asks(p, T_OUT) && !drive.readOnly)
    ensures forall e :: e in StepAt(p, drive).events ==> !e.Wrote?
  {
    hide Offset, ReadAt, RequestType, Fits, LaxOut, WriteThrough;
  }

  lemma {:induction false} UnwrittenByte(es: seq<Event>, a: nat)
    requires forall e :: e in es && e.Wrote? ==> !e.Covers(a)
    ensures LastByte(Writes(es), a) == None
  {
    if es == [] {
    } else {
      UnwrittenByte(es[1..], a);
      LastByteConcat(WriteOf(es[0]), Writes(es[1..]), a);
      assert es[0] in es;
      UncoveredHasNoLastByte(WriteOf(es[0]), a);
    }
  }

  predicate NoWriteAt(c: Script, t: nat, k: nat, x: nat) {
    At(c, t, k).Some? ==> !WritesTo(At(c, t, k).value, c.drive, x)
  }

  /** A logged write to x before (t1, k1) comes from a request that writes to x. */
  lemma LoggedWriter(c: Script, t1: nat, k1: nat, m: nat, x: nat) returns (t: nat, k: nat)
    requires At(c, t1, k1).Some? && m < |At(c, t1, k1).value.log|
    requires var e := At(c, t1, k1).value.log[m]; e.Wrote? && e.Covers(x)
    ensures Before(t, k, t1, k1) && !NoWriteAt(c, t, k, x) && Made(At(c, t, k).value, c.drive, m)
  {
    hide At, StepAt, WritesTo;
    t, k := MakerBefore(c, t1, k1, m);
    var p := At(c, t, k).value;
    assert LogAfter(p, c.drive)[m] == StepAt(p, c.drive).events[m - |p.log|];
    WriteIsLogged(p, c.drive, x);
  }

  /** Nothing in a stretch of the log covers x if none of the requests that made it writes to x. */
  lemma QuietStretch(c: Script, t: nat, k: nat, t1: nat, k1: nat, x: nat)
    requires At(c, t, k).Some? && At(c, t1, k1).Some? && Before(t, k, t1, k1)
    requires forall u: nat, j: nat :: Before(t, k, u, j) && Before(u, j, t1, k1) ==> NoWriteAt(c, u, j, x)
    ensures LogAfter(At(c, t, k).value, c.drive) <= At(c, t1, k1).value.log
    ensures LastByte(Writes(At(c, t1, k1).value.log[|LogAfter(At(c, t, k).value, c.drive)|..]), x) == None
  {
    hide ReachedIn, StepAt, WritesTo, LastByte, Writes;
    SessionOrder(c.disk, c.pos, [], c.turns, c.drive, t, k, t1, k1);
    var done, log := |LogAfter(At(c, t, k).value, c.drive)|, At(c, t1, k1).value.log;
    forall e | e in log[done..] && e.Wrote?
      ensures !e.Covers(x)
    {
      var i :| 0 <= i < |log[done..]| && log[done..][i] == e;
      if e.Covers(x) {
        var u, j := LoggedWriter(c, t1, k1, done + i, x);
        if Before(u, j, t, k) {
          SessionOrder(c.disk, c.pos, [], c.turns, c.drive, u, j, t, k);
        }
      }
    }
    UnwrittenByte(log[done..], x);
  }

  /**
   Reads see the latest write.  Take an OUT that writes to offset x, a later IN that reads x, and
   no OUT in between that writes to x.  Then the byte the IN leaves in guest memory is the byte
   the OUT found there, whatever else the two and all other chains do.
   */
  lemma ReadSeesLatestWrite(c: Script, t: nat, k: nat, t1: nat, k1: nat, x: nat)
    requires At(c, t, k).Some? && At(c, t1, k1).Some? && Before(t, k, t1, k1)
    requires WritesTo(At(c, t, k).value, c.drive, x)
    requires forall u: nat, j: nat :: Before(t, k, u, j) && Before(u, j, t1, k1) ==> NoWriteAt(c, u, j, x)
    requires Delivers(At(c, t1, k1).value, c.drive, x)
    ensures var p, q := At(c, t, k).value, At(c, t1, k1).value;
            HoldsByte(StepAt(q, c.drive).host.ram, Buffered(q, c.drive, x),
                      Payload(p.host.ram, p.desc, x - Target(p, c.drive)))
  {
    hide At, StepAt, Payload, Writes, LastByte, View, MappedData, Offset, Asks;
    var p, q := At(c, t, k).value, At(c, t1, k1).value;
    QuietStretch(c, t, k, t1, k1, x);
    var es := StepAt(p, c.drive).events;
    var rest := q.log[|LogAfter(p, c.drive)|..];
    assert q.log == (p.log + es) + rest;
    WritesConcat(p.log + es, rest);
    WritesConcat(p.log, es);
    LastByteConcat(Writes(p.log) + Writes(es), Writes(rest), x);
    LastByteConcat(Writes(p.log), Writes(es), x);
    WriteIsLogged(p, c.drive, x);
    InShowsOverlay(c, t1, k1, x);
  }

  /** And an offset no earlier OUT wrote to reads as it stood on the disk at the start. */
  lemma ReadSeesInitialDisk(c: Script, t1: nat, k1: nat, x: nat)
    requires At(c, t1, k1).Some?
    requires forall u: nat, j: nat :: Before(u, j, t1, k1) ==> NoWriteAt(c, u, j, x)
    requires Delivers(At(c, t1, k1).value, c.drive, x)
    ensures var q := At(c, t1, k1).value;
            HoldsByte(StepAt(q, c.drive).host.ram, Buffered(q, c.drive, x), View(c.disk, x))
  {
    hide At, StepAt, Writes, LastByte, View, MappedData, Offset, Asks, WritesTo;
    var log := At(c, t1, k1).value.log;
    forall e | e in log && e.Wrote?
      ensures !e.Covers(x)
    {
      var m :| 0 <= m < |log| && log[m] == e;
      if e.Covers(x) {
        var u, j := LoggedWriter(c, t1, k1, m, x);
      }
    }
    UnwrittenByte(log, x);
    InShowsOverlay(c, t1, k1, x);
  }

  /** The request at q is an IN that reads offset x into mapped memory. */
  predicate Delivers(q: Point, drive: Drive, x: nat) {
    Asks(q, T_IN) && Target(q, drive) <= x < Target(q, drive) + MappedData(q.host.ram, q.desc)
  }

  /** The guest address at which it puts that byte. */
  function Buffered(q: Point, drive: Drive, x: nat): nat
    requires Delivers(q, drive, x)
  {
    q.desc.addr + 16 + (x - Target(q, drive))
  }

  lemma InShowsOverlay(c: Script, t1: nat, k1: nat, x: nat)
    requires At(c, t1, k1).Some? && Delivers(At(c, t1, k1).value, c.drive, x)
    ensures var q := At(c, t1, k1).value;
            HoldsByte(StepAt(q, c.drive).host.ram, Buffered(q, c.drive, x), Overlaid(c.disk, Writes(q.log), x))
  {
    hide At, StepAt, Writes, Offset, Overlaid, Asks;
    EveryInDelivers(c, t1, k1);
    var q := At(c, t1, k1).value;
    assert Buffered(q, c.drive, x) in q.host.ram;
  }
}
