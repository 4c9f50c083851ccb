/**
 virtio/block.rs: `process_request` with its handlers, and the copy of the same logic inside
 `process_queue` that ignores errors.
 */
module Block {
  import opened Words
  import opened GuestMemory
  import opened WriteLog
  import opened Virtqueue
  import opened HostFile

  const T_IN: U32 := 0
  const T_OUT: U32 := 1
  const T_FLUSH: U32 := 4
  const S_OK: Byte := 0
  const S_IOERR: Byte := 1
  const S_UNSUPP: Byte := 2
  const BLOCK_SIZE: nat := 512

  /** What stays the same about a disk: where the host refuses to seek to, and whether it may be written. */
  datatype Drive = Drive(limit: SeekLimit, readOnly: bool)

  /** Everything a request can change. */
  datatype Host = Host(disk: seq<Byte>, pos: nat, ram: Image)

  /** A read or a write of data at a file position; asked is the offset the request named. */
  datatype Event =
    | Delivered(at: nat, asked: U64, data: seq<Byte>)
    | Wrote(at: nat, asked: U64, data: seq<Byte>)
  {
    predicate Covers(i: nat) {
      at <= i < at + |data|
    }
  }

  /** Go on with the next descriptor, end the chain with a status, or return an error. */
  datatype Verdict = Continue | Finish(status: Byte) | Fail

  datatype Step = Step(host: Host, verdict: Verdict, events: seq<Event>)

  function RequestType(ram: Image, d: Descriptor): U32 {
    WordSizes();
    LeValue(ReadThrough(ram, d.addr, 4))
  }

  /** The byte offset of the sector, in wrapping 64-bit arithmetic.  The sector is read where the type is. */
  function Offset(ram: Image, d: Descriptor): U64 {
    (LeValue(ReadThrough(ram, d.addr, 8)) * BLOCK_SIZE) % U64_LIMIT
  }

  /** Length of the data part of a descriptor: `saturating_sub(16)`. */
  function DataLen(d: Descriptor): nat {
    if d.len < 16 then 0 else d.len - 16
  }

  // ----- The form that reports errors -----

  function StrictIn(h: Host, d: Descriptor, drive: Drive): Step {
    var n, offset := DataLen(d), Offset(h.ram, d);
    if !Fits(h.ram, d.addr, 8) || offset >= drive.limit then Step(h, Fail, [])
    else
      var h1 := h.(pos := offset + Readable(h.disk, offset, n));
      if Readable(h.disk, offset, n) < n || d.addr + 16 >= U64_LIMIT then Step(h1, Fail, [])
      else
        var data := ReadAt(h.disk, offset, n);
        Step(h1.(ram := WriteThrough(h.ram, d.addr + 16, data)),
             if Fits(h.ram, d.addr + 16, n) then Continue else Fail,
             [Delivered(offset, offset, data)])
  }

  function StrictOut(h: Host, d: Descriptor, drive: Drive): Step {
    var n, offset := DataLen(d), Offset(h.ram, d);
    if !Fits(h.ram, d.addr, 8) || offset >= drive.limit then Step(h, Fail, [])
    else if d.addr + 16 >= U64_LIMIT || !Fits(h.ram, d.addr + 16, n) then Step(h.(pos := offset), Fail, [])
    else
      var data := ReadThrough(h.ram, d.addr + 16, n);
      Step(h.(disk := WriteAt(h.disk, offset, data), pos := offset + n), Continue, [Wrote(offset, offset, data)])
  }

  function StrictStep(h: Host, d: Descriptor, drive: Drive): Step {
    if !Fits(h.ram, d.addr, 4) then Step(h, Fail, [])
    else if RequestType(h.ram, d) == T_IN then StrictIn(h, d, drive)
    else if RequestType(h.ram, d) == T_OUT then
      if drive.readOnly then Step(h, Finish(S_IOERR), []) else StrictOut(h, d, drive)
    else if RequestType(h.ram, d) == T_FLUSH then Step(h, Continue, [])
    else Step(h, Finish(S_UNSUPP), [])
  }

  // ----- The form that ignores errors -----

  function LaxIn(h: Host, d: Descriptor, drive: Drive): Step {
    var n, at := DataLen(d), SeekTo(h.pos, Offset(h.ram, d), drive.limit);
    var data := ReadAt(h.disk, at, n);
    var h1 := h.(pos := at + Readable(h.disk, at, n));
    Step(if d.addr + 16 < U64_LIMIT then h1.(ram := WriteThrough(h.ram, d.addr + 16, data)) else h1,
         Continue,
         [Delivered(at, Offset(h.ram, d), data)])
  }

  function LaxOut(h: Host, d: Descriptor, drive: Drive): Step {
    var n, at := DataLen(d), SeekTo(h.pos, Offset(h.ram, d), drive.limit);
    var data := if d.addr + 16 < U64_LIMIT then ReadThrough(h.ram, d.addr + 16, n) else Zeros(n);
    Step(h.(disk := WriteAt(h.disk, at, data), pos := at + n), Continue, [Wrote(at, Offset(h.ram, d), data)])
  }

  function LaxStep(h: Host, d: Descriptor, drive: Drive): Step {
    if !Fits(h.ram, d.addr, 4) then Step(h, Fail, [])
    else if RequestType(h.ram, d) == T_IN then LaxIn(h, d, drive)
    else if RequestType(h.ram, d) == T_OUT then
      if drive.readOnly then Step(h, Finish(S_IOERR), []) else LaxOut(h, d, drive)
    else if RequestType(h.ram, d) == T_FLUSH then Step(h, Continue, [])
    else Step(h, Finish(S_UNSUPP), [])
  }

  // ----- A chain of descriptors -----

  /** The rest of a chain after a step, with the events of the step put in front. */
  function Then(s: Step, rest: Step): Step {
    Step(rest.host, rest.verdict, s.events + rest.events)
  }

  /**
   How the descriptors of a chain are found while it is being served.  They stand in guest
   memory, which requests of the same chain may overwrite: each is a function of guest memory
   at the times the descriptors so far were looked up.  A chain has at most limit descriptors.
   */
  datatype Walk = Walk(limit: nat, fetch: seq<Image> -> Option<Descriptor>)

  /** The next descriptor, seen being guest memory at the earlier lookups. */
  function NextOf(w: Walk, seen: seq<Image>, ram: Image): Option<Descriptor> {
    if |seen| < w.limit then w.fetch(seen + [ram]) else None
  }

  function StrictChain(h: Host, w: Walk, seen: seq<Image>, drive: Drive): Step
    decreases w.limit - |seen|
  {
    var d := NextOf(w, seen, h.ram);
    if d.None? then Step(h, Finish(S_OK), [])
    else
      var s := StrictStep(h, d.value, drive);
      if s.verdict.Continue? then Then(s, StrictChain(s.host, w, seen + [h.ram], drive)) else s
  }

  function LaxChain(h: Host, w: Walk, seen: seq<Image>, drive: Drive): Step
    decreases w.limit - |seen|
  {
    var d := NextOf(w, seen, h.ram);
    if d.None? then Step(h, Finish(S_OK), [])
    else
      var s := LaxStep(h, d.value, drive);
      if s.verdict.Continue? then Then(s, LaxChain(s.host, w, seen + [h.ram], drive)) else s
  }

  lemma StepsAgree(h: Host, d: Descriptor, drive: Drive)
    requires !StrictStep(h, d, drive).verdict.Fail?
    ensures LaxStep(h, d, drive) == StrictStep(h, d, drive)
  {
    hide Fits, ReadThrough, WriteThrough, ReadAt, WriteAt, LeValue;
  }

  /**
   On every chain for which the reporting form returns a status, the ignoring form returns the
   same status and leaves the same disk, file position and guest memory, even when requests
   overwrite each other or descriptors still to come.
   */
  lemma {:induction false} FormsAgree(h: Host, w: Walk, seen: seq<Image>, drive: Drive)
    requires !StrictChain(h, w, seen, drive).verdict.Fail?
    ensures LaxChain(h, w, seen, drive) == StrictChain(h, w, seen, drive)
    decreases w.limit - |seen|
  {
    hide StrictStep, LaxStep;
    var d := NextOf(w, seen, h.ram);
    if d.None? {
    } else {
      StepsAgree(h, d.value, drive);
      var s := StrictStep(h, d.value, drive);
      if s.verdict.Continue? {
        FormsAgree(s.host, w, seen + [h.ram], drive);
      }
    }
  }

  // ----- A pass over the queue -----

  /** A pass: the host it leaves, how many chains it took, what it gave back, and what it did to the disk. */
  datatype Pass = Pass(host: Host, taken: nat, used: seq<UsedElem>, outcome: Outcome, events: seq<Event>)

  function QueuePass(h: Host, avail: seq<ChainOf<Walk>>, size: nat, drive: Drive): (p: Pass)
    decreases |avail|
  {
    if avail == [] then Pass(h, 0, [], Done, [])
    else
      var s := LaxChain(h, avail[0].descs, [], drive);
      if s.verdict.Finish? && avail[0].head < size then
        var rest := QueuePass(s.host, avail[1..], size, drive);
        Pass(rest.host, 1 + rest.taken, [UsedElem(avail[0].head, s.verdict.status)] + rest.used, rest.outcome,
             s.events + rest.events)
      else Pass(s.host, 1, [], Failed, s.events)
  }

  /**
   A successful pass takes every chain and gives each back once, in order.  A failed one loses
   exactly the last chain it took.
   */
  lemma {:induction false} BlockConservesChains(h: Host, avail: seq<ChainOf<Walk>>, size: nat, drive: Drive)
    ensures var p := QueuePass(h, avail, size, drive);
            && p.taken <= |avail|
            && (p.outcome.Done? ==> p.taken == |avail| && UsedHeads(p.used) == Heads(avail))
            && (!p.outcome.Done? ==> p.taken > 0 && UsedHeads(p.used) == Heads(avail[..p.taken - 1]))
    decreases |avail|
  {
    if avail == [] {
    } else {
      var s := LaxChain(h, avail[0].descs, [], drive);
      if s.verdict.Finish? && avail[0].head < size {
        BlockConservesChains(s.host, avail[1..], size, drive);
        var rest := QueuePass(s.host, avail[1..], size, drive);
        UsedHeadsCons(UsedElem(avail[0].head, s.verdict.status), rest.used);
        if rest.outcome.Done? {
          HeadsCons(avail, |avail|);
        } else {
          HeadsCons(avail, rest.taken);
        }
      }
    }
  }

  class VirtioBlock {
    const ram: Ram
    const queue: QueueOf<Walk>
    const drive: Drive
    var disk: seq<Byte>
    var pos: nat

    constructor (ram: Ram, queue: QueueOf<Walk>, disk: seq<Byte>, drive: Drive)
      ensures this.ram == ram && this.queue == queue && this.drive == drive
      ensures this.disk == disk && pos == 0
    {
      this.ram, this.queue, this.drive, this.disk, pos := ram, queue, drive, disk, 0;
    }

    function State(): Host
      reads this, ram
    {
      Host(disk, pos, ram.bytes)
    }

    /** `handle_read`. */
    method HandleRead(d: Descriptor) returns (ok: bool)
      modifies this, ram
      ensures var s := StrictIn(old(State()), d, drive); State() == s.host && ok == s.verdict.Continue?
    {
      hide Fits, ReadThrough, WriteThrough, ReadAt, WriteAt, Readable, LeValue, Zeros;
      var fits, sectorBytes := ram.ReadSlice(d.addr, 8);
      if !fits { return false; }
      var offset := (LeValue(sectorBytes) * BLOCK_SIZE) % U64_LIMIT;
      if offset >= drive.limit { return false; }
      var n := DataLen(d);
      var data, read := ReadAt(disk, offset, n), Readable(disk, offset, n);
      pos := offset + read;
      if read < n || d.addr + 16 >= U64_LIMIT { return false; }
      ok := ram.WriteSlice(data, d.addr + 16);
    }

    /** `handle_write`. */
    method HandleWrite(d: Descriptor) returns (ok: bool)
      modifies this
      ensures var s := StrictOut(old(State()), d, drive); State() == s.host && ok == s.verdict.Continue?
    {
      hide Fits, ReadThrough, WriteThrough, ReadAt, WriteAt, Readable, LeValue, Zeros;
      var fits, sectorBytes := ram.ReadSlice(d.addr, 8);
      if !fits { return false; }
      var offset := (LeValue(sectorBytes) * BLOCK_SIZE) % U64_LIMIT;
      if offset >= drive.limit { return false; }
      pos := offset;
      var n := DataLen(d);
      if d.addr + 16 >= U64_LIMIT { return false; }
      var read, data := ram.ReadSlice(d.addr + 16, n);
      if !read { return false; }
      disk, pos := WriteAt(disk, offset, data), offset + n;
      ok := true;
    }

    /** `process_request`. */
    method ProcessRequest(chain: ChainOf<Walk>) returns (verdict: Verdict)
      modifies this, ram
      ensures var s := StrictChain(old(State()), chain.descs, [], drive); State() == s.host && verdict == s.verdict
    {
      hide Fits, ReadThrough, WriteThrough, ReadAt, WriteAt, Readable, LeValue, Zeros;
      var w := chain.descs;
      var seen: seq<Image> := [];
      while |seen| < w.limit
        invariant var s, s0 := StrictChain(State(), w, seen, drive), StrictChain(old(State()), w, [], drive);
                  s.host == s0.host && s.verdict == s0.verdict
        decreases w.limit - |seen|
      {
        var next := w.fetch(seen + [ram.bytes]);
        if next.None? { break; }
        var d := next.value;
        seen := seen + [ram.bytes];
        var fits, typeBytes := ram.ReadSlice(d.addr, 4);
        if !fits { return Fail; }
        var reqType := LeValue(typeBytes);
        if reqType == T_IN {
          var ok := HandleRead(d);
          if !ok { return Fail; }
        } else if reqType == T_OUT {
          if drive.readOnly { return Finish(S_IOERR); }
          var ok := HandleWrite(d);
          if !ok { return Fail; }
        } else if reqType != T_FLUSH {
          return Finish(S_UNSUPP);
        }
      }
      verdict := Finish(S_OK);
    }

    /** The IN arm of the inlined form: every error is dropped. */
    method InlineRead(d: Descriptor)
      modifies this, ram
      ensures State() == LaxIn(old(State()), d, drive).host
    {
      hide Fits, ReadThrough, WriteThrough, ReadAt, Readable, LeValue;
      var _, sectorBytes := ram.ReadSlice(d.addr, 8);
      pos := SeekTo(pos, (LeValue(sectorBytes) * BLOCK_SIZE) % U64_LIMIT, drive.limit);
      var n := DataLen(d);
      var data := ReadAt(disk, pos, n);
      pos := pos + Readable(disk, pos, n);
      if d.addr + 16 < U64_LIMIT {
        var _ := ram.WriteSlice(data, d.addr + 16);
      }
    }

    /** The OUT arm of the inlined form. */
    method InlineWrite(d: Descriptor)
      modifies this
      ensures State() == LaxOut(old(State()), d, drive).host
    {
      hide Fits, ReadThrough, WriteAt, LeValue, Zeros;
      var _, sectorBytes := ram.ReadSlice(d.addr, 8);
      pos := SeekTo(pos, (LeValue(sectorBytes) * BLOCK_SIZE) % U64_LIMIT, drive.limit);
      var data := Zeros(DataLen(d));
      if d.addr + 16 < U64_LIMIT {
        var _, read := ram.ReadSlice(d.addr + 16, DataLen(d));
        data := read;
      }
      disk, pos := WriteAt(disk, pos, data), pos + |data|;
    }

    /** The body of the loop in `process_queue`, for one chain. */
    method ProcessInline(w: Walk) returns (verdict: Verdict)
      modifies this, ram
      ensures var s := LaxChain(old(State()), w, [], drive); State() == s.host && verdict == s.verdict
    {
      hide Fits, ReadThrough, WriteThrough, ReadAt, WriteAt, Readable, LeValue, Zeros;
      var seen: seq<Image> := [];
      while |seen| < w.limit
        invariant var s, s0 := LaxChain(State(), w, seen, drive), LaxChain(old(State()), w, [], drive);
                  s.host == s0.host && s.verdict == s0.verdict
        decreases w.limit - |seen|
      {
        var next := w.fetch(seen + [ram.bytes]);
        if next.None? { break; }
        var d := next.value;
        seen := seen + [ram.bytes];
        var fits, typeBytes := ram.ReadSlice(d.addr, 4);
        if !fits { return Fail; }
        var reqType := LeValue(typeBytes);
        if reqType == T_IN {
          InlineRead(d);
        } else if reqType == T_OUT {
          if drive.readOnly { return Finish(S_IOERR); }
          InlineWrite(d);
        } else if reqType != T_FLUSH {
          return Finish(S_UNSUPP);
        }
      }
      verdict := Finish(S_OK);
    }

    /** `process_queue`.  The status of a chain is returned as the length of its used element. */
    method ProcessQueue(queueIdx: U32) returns (outcome: Outcome)
      modifies this, ram, queue
      ensures queueIdx != 0 || !queue.ready ==>
                && outcome == Failed && State() == old(State())
                && queue.avail == old(queue.avail) && queue.used == old(queue.used)
      ensures queueIdx == 0 && queue.ready ==>
                var p := QueuePass(old(State()), old(queue.avail), queue.size, drive);
                && State() == p.host && outcome == p.outcome
                && p.taken <= |old(queue.avail)| && queue.avail == old(queue.avail)[p.taken..]
                && queue.used == old(queue.used) + p.used
    {
      hide LaxChain, Heads, UsedHeads;
      if queueIdx != 0 { return Failed; }
      ghost var all, h0 := queue.avail, State();
      BlockConservesChains(h0, all, queue.size, drive);
      ghost var goal := QueuePass(h0, all, queue.size, drive);
      ghost var done := 0;
      while true
        invariant done <= |all| && queue.avail == all[done..]
        invariant done > 0 ==> queue.ready
        invariant done == 0 ==> State() == h0 && queue.used == old(queue.used)
        invariant var p := QueuePass(State(), queue.avail, queue.size, drive);
                  && p.host == goal.host && p.outcome == goal.outcome && done + p.taken == goal.taken
                  && queue.used + p.used == old(queue.used) + goal.used
        decreases |queue.avail|
      {
        var ok, next := queue.Next();
        if !ok { return Failed; }
        if next.None? { break; }
        done := done + 1;
        var chain := next.value;
        var verdict := ProcessInline(chain.descs);
        if !verdict.Finish? { return Failed; }
        ghost var given := queue.used;
        var added := queue.AddUsed(chain.head, verdict.status);
        if !added { return Failed; }
        PushThenRest(given, UsedElem(chain.head, verdict.status),
                     QueuePass(State(), queue.avail, queue.size, drive).used);
      }
      outcome := Done;
    }
  }
}
