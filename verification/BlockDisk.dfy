/** The disk behind virtio-blk over whole sessions, and the log of what was read and written. */
module BlockDisk {
  import opened Words
  import opened GuestMemory
  import opened WriteLog
  import opened Virtqueue
  import opened HostFile
  import opened Block

  /** One chain served; before it the guest may have changed its memory at will. */
  datatype Turn = Turn(ram: Image, walk: Walk)

  datatype Session = Session(disk: seq<Byte>, pos: nat, events: seq<Event>)

  /** Any number of chains served one after the other by the code in `process_queue`. */
  function Serve(disk: seq<Byte>, pos: nat, turns: seq<Turn>, drive: Drive): (r: Session)
    decreases |turns|
  {
    if turns == [] then Session(disk, pos, [])
    else
      var s := LaxChain(Host(disk, pos, turns[0].ram), turns[0].walk, [], drive);
      var rest := Serve(s.host.disk, s.host.pos, turns[1..], drive);
      rest.(events := s.events + rest.events)
  }

  function WriteOf(e: Event): seq<Write> {
    if e.Wrote? then [Write(e.at, e.data)] else []
  }

  /** The writes among the events. */
  function Writes(es: seq<Event>): (ws: seq<Write>) {
    if es == [] then [] else WriteOf(es[0]) + Writes(es[1..])
  }

  lemma {:induction false} WritesConcat(xs: seq<Event>, ys: seq<Event>)
    ensures Writes(xs + ys) == Writes(xs) + Writes(ys)
  {
    hide WriteOf;
    if xs == [] {
      assert xs + ys == ys;
    } else {
      assert (xs + ys)[1..] == xs[1..] + ys;
      WritesConcat(xs[1..], ys);
      assert WriteOf(xs[0]) + (Writes(xs[1..]) + Writes(ys)) == (WriteOf(xs[0]) + Writes(xs[1..])) + Writes(ys);
    }
  }

  /** A read returns what the disk shows at its position. */
  predicate Shows(disk: seq<Byte>, e: Event) {
    e.Delivered? ==> e.data == ReadAt(disk, e.at, |e.data|)
  }

  /** Every read among the events returns what the writes before it left on the disk. */
  predicate Coherent(disk: seq<Byte>, es: seq<Event>) {
    forall k :: 0 <= k < |es| ==> Shows(WriteAll(disk, Writes(es[..k])), es[k])
  }

  lemma CoherentConcat(disk: seq<Byte>, xs: seq<Event>, ys: seq<Event>)
    requires Coherent(disk, xs) && Coherent(WriteAll(disk, Writes(xs)), ys)
    ensures Coherent(disk, xs + ys)
  {
    hide Shows, Writes, WriteAll;
    var es := xs + ys;
    forall k | 0 <= k < |es|
      ensures Shows(WriteAll(disk, Writes(es[..k])), es[k])
    {
      if k < |xs| {
        assert es[..k] == xs[..k] && es[k] == xs[k];
      } else {
        var j := k - |xs|;
        assert es[k] == ys[j] && es[..k] == xs + ys[..j];
        WritesConcat(xs, ys[..j]);
        WriteAllConcat(disk, Writes(xs), Writes(ys[..j]));
      }
    }
  }

  lemma StepIsCoherent(h: Host, d: Descriptor, drive: Drive)
    ensures var s := LaxStep(h, d, drive);
            s.host.disk == WriteAll(h.disk, Writes(s.events)) && Coherent(h.disk, s.events)
  {
    hide Fits, ReadThrough, WriteThrough, ReadAt, LeValue;
    var s := LaxStep(h, d, drive);
    if |s.events| == 1 {
      assert s.events[1..] == [] && s.events[..0] == [];
      if s.events[0].Wrote? {
        var ws := Writes(s.events);
        assert ws[..0] == [];
      }
    }
  }

  lemma {:induction false} ChainIsCoherent(h: Host, w: Walk, seen: seq<Image>, drive: Drive)
    ensures var s := LaxChain(h, w, seen, drive);
            s.host.disk == WriteAll(h.disk, Writes(s.events)) && Coherent(h.disk, s.events)
    decreases w.limit - |seen|
  {
    hide LaxStep, WriteAt;
    var d := NextOf(w, seen, h.ram);
    if d.None? {
    } else {
      StepIsCoherent(h, d.value, drive);
      var s := LaxStep(h, d.value, drive);
      if s.verdict.Continue? {
        ChainIsCoherent(s.host, w, seen + [h.ram], drive);
        var rest := LaxChain(s.host, w, seen + [h.ram], drive);
        WritesConcat(s.events, rest.events);
        WriteAllConcat(h.disk, Writes(s.events), Writes(rest.events));
        CoherentConcat(h.disk, s.events, rest.events);
      }
    }
  }

  lemma {:induction false} ServeIsCoherent(disk: seq<Byte>, pos: nat, turns: seq<Turn>, drive: Drive)
    ensures var r := Serve(disk, pos, turns, drive);
            r.disk == WriteAll(disk, Writes(r.events)) && Coherent(disk, r.events)
    decreases |turns|
  {
    hide LaxChain;
    if turns == [] {
    } else {
      var h := Host(disk, pos, turns[0].ram);
      var s := LaxChain(h, turns[0].walk, [], drive);
      ChainIsCoherent(h, turns[0].walk, [], drive);
      ServeIsCoherent(s.host.disk, s.host.pos, turns[1..], drive);
      var rest := Serve(s.host.disk, s.host.pos, turns[1..], drive);
      WritesConcat(s.events, rest.events);
      WriteAllConcat(disk, Writes(s.events), Writes(rest.events));
      CoherentConcat(disk, s.events, rest.events);
    }
  }

  /** The byte at offset i once the log has been written over the disk: the last one written, else the original. */
  function Overlaid(disk: seq<Byte>, log: seq<Write>, i: nat): Byte {
    LastByte(log, i).GetOr(View(disk, i))
  }

  /** A read returns the overlay of the log over the disk, byte for byte. */
  predicate ReadsOverlay(disk: seq<Byte>, log: seq<Write>, e: Event) {
    e.Delivered? ==> forall j :: 0 <= j < |e.data| ==> e.data[j] == Overlaid(disk, log, e.at + j)
  }

  lemma ShownIsOverlaid(disk: seq<Byte>, log: seq<Write>, e: Event)
    requires Shows(WriteAll(disk, log), e)
    ensures ReadsOverlay(disk, log, e)
  {
    if e.Delivered? {
      forall j | 0 <= j < |e.data|
        ensures e.data[j] == Overlaid(disk, log, e.at + j)
      {
        LastWriteShows(disk, log, e.at + j);
      }
    }
  }

  /**
   Over any session the disk is the initial image overlaid with the accepted OUT payloads in
   order, holes reading as zero.  And each IN returns exactly that overlay of the writes before it.
   */
  lemma ReadsSeeLatestWrites(disk: seq<Byte>, pos: nat, turns: seq<Turn>, drive: Drive)
    ensures var r := Serve(disk, pos, turns, drive);
            && (forall i: nat :: View(r.disk, i) == Overlaid(disk, Writes(r.events), i))
            && (forall k :: 0 <= k < |r.events| ==> ReadsOverlay(disk, Writes(r.events[..k]), r.events[k]))
  {
    hide WriteAll, Writes, Shows, View, Serve, ReadsOverlay, Overlaid;
    ServeIsCoherent(disk, pos, turns, drive);
    var r := Serve(disk, pos, turns, drive);
    forall i: nat
      ensures View(r.disk, i) == Overlaid(disk, Writes(r.events), i)
    {
      DiskIsOverlaid(disk, Writes(r.events), i);
    }
    forall k | 0 <= k < |r.events|
      ensures ReadsOverlay(disk, Writes(r.events[..k]), r.events[k])
    {
      ShownIsOverlaid(disk, Writes(r.events[..k]), r.events[k]);
    }
  }

  lemma DiskIsOverlaid(disk: seq<Byte>, log: seq<Write>, i: nat)
    ensures View(WriteAll(disk, log), i) == Overlaid(disk, log, i)
  {
    LastWriteShows(disk, log, i);
  }

  // ----- A pass over the queue is such a session -----

  /** The turns a pass takes: guest memory is carried from one chain to the next. */
  function PassTurns(h: Host, avail: seq<ChainOf<Walk>>, size: nat, drive: Drive): (turns: seq<Turn>)
    decreases |avail|
  {
    if avail == [] then []
    else
      var s := LaxChain(h, avail[0].descs, [], drive);
      [Turn(h.ram, avail[0].descs)]
      + (if s.verdict.Finish? && avail[0].head < size then PassTurns(s.host, avail[1..], size, drive) else [])
  }

  lemma {:induction false} PassIsSession(h: Host, avail: seq<ChainOf<Walk>>, size: nat, drive: Drive)
    ensures var p := QueuePass(h, avail, size, drive);
            Serve(h.disk, h.pos, PassTurns(h, avail, size, drive), drive)
            == Session(p.host.disk, p.host.pos, p.events)
    decreases |avail|
  {
    hide LaxChain;
    if avail == [] {
    } else {
      var s := LaxChain(h, avail[0].descs, [], drive);
      var turns := PassTurns(h, avail, size, drive);
      assert turns[0] == Turn(h.ram, avail[0].descs);
      if s.verdict.Finish? && avail[0].head < size {
        PassIsSession(s.host, avail[1..], size, drive);
        assert turns[1..] == PassTurns(s.host, avail[1..], size, drive);
      } else {
        assert turns[1..] == [];
      }
    }
  }
}
