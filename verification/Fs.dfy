/** virtio/fs.rs: the queue loop of `handle_event`. */
module Fs {
  import opened Words
  import opened GuestMemory
  import opened WriteLog
  import opened Virtqueue

  /** The chain has a first descriptor and all of it can be read. */
  predicate Served(ram: Image, c: Chain) {
    c.descs != [] && Fits(ram, c.descs[0].addr, c.descs[0].len)
  }

  /** `process_9p` looks at byte 4 after checking for only 4 bytes. */
  predicate Trips(ram: Image, c: Chain) {
    Served(ram, c) && c.descs[0].len == 4
  }

  /** The position of the first chain that trips it, or the number of chains. */
  function FirstTrip(ram: Image, chains: seq<Chain>): (k: nat)
    ensures k <= |chains|
    ensures forall i :: 0 <= i < k ==> !Trips(ram, chains[i])
    ensures k < |chains| ==> Trips(ram, chains[k])
  {
    if chains == [] || Trips(ram, chains[0]) then 0 else 1 + FirstTrip(ram, chains[1..])
  }

  function ServedOnly(ram: Image, chains: seq<Chain>): (cs: seq<Chain>) {
    if chains == [] then []
    else
      var before, last := ServedOnly(ram, chains[..|chains| - 1]), chains[|chains| - 1];
      if Served(ram, last) then before + [last] else before
  }

  function FirstLength(): Chain -> U32 {
    (c: Chain) => if c.descs == [] then 0 else c.descs[0].len
  }

  class VirtioFs {
    const ram: Ram
    const queue: Queue

    constructor (ram: Ram, queue: Queue)
      ensures this.ram == ram && this.queue == queue
    {
      this.ram, this.queue := ram, queue;
    }

    /** `process_9p`: every message is refused; one of exactly 4 bytes indexes past its end. */
    method Process9p(data: seq<Byte>) returns (outcome: Outcome)
      ensures outcome == if |data| == 4 then Panicked else Failed
    {
      if |data| < 4 { return Failed; }
      if |data| <= 4 { return Panicked; }
      outcome := Failed;
    }

    /**
     `handle_event`: gives back, in order and with their first descriptor's length, exactly the
     chains whose first descriptor exists and can be read; the others are taken and lost.  It
     stops dead at the first readable first descriptor of exactly 4 bytes.
     */
    method HandleEvent(deviceEvent: U16, readable: bool) returns (outcome: Outcome)
      modifies queue
      ensures deviceEvent != 0 ==> outcome == Failed
      ensures deviceEvent == 0 && !readable ==> outcome == Done
      ensures deviceEvent != 0 || !readable || !queue.ready ==>
                queue.avail == old(queue.avail) && queue.used == old(queue.used)
      ensures deviceEvent == 0 && readable && !queue.ready ==> outcome == Failed
      ensures deviceEvent == 0 && readable && queue.ready ==>
                var all, k := old(queue.avail), FirstTrip(ram.bytes, old(queue.avail));
                && queue.used == old(queue.used) + GivenBack(ServedOnly(ram.bytes, all[..k]), queue.size, FirstLength())
                && outcome == (if k < |all| then Panicked else Done)
                && queue.avail == (if k < |all| then all[k + 1..] else [])
    {
      hide Fits, ReadThrough, GivenBack, ServedOnly, FirstTrip, FirstLength;
      if deviceEvent != 0 { return Failed; }
      if !readable { return Done; }
      ghost var all, k := queue.avail, 0;
      NoneServed(old(queue.used), ram.bytes, all, queue.size);
      while true
        invariant k <= |all| && queue.avail == all[k..]
        invariant forall i :: 0 <= i < k ==> !Trips(ram.bytes, all[i])
        invariant queue.used == old(queue.used) + GivenBack(ServedOnly(ram.bytes, all[..k]), queue.size, FirstLength())
        invariant !queue.ready ==> k == 0
        decreases |queue.avail|
      {
        var ready, next := queue.Next();
        if !ready { return Failed; }
        if next.None? { break; }
        var chain := next.value;
        ServedNext(old(queue.used), ram.bytes, all, k, queue.size);
        k := k + 1;
        if chain.descs == [] { continue; }
        var d := chain.descs[0];
        var ok, data := ram.ReadSlice(d.addr, d.len);
        if !ok { continue; }
        var handled := Process9p(data);
        if handled == Panicked {
          FirstTripIs(ram.bytes, all, k - 1);
          return Panicked;
        }
        var _ := queue.AddUsed(chain.head, d.len);
      }
      assert all[..k] == all;
      FirstTripIs(ram.bytes, all, k);
      outcome := Done;
    }
  }

  lemma NoneServed(used: seq<UsedElem>, ram: Image, chains: seq<Chain>, size: nat)
    ensures used + GivenBack(ServedOnly(ram, chains[..0]), size, FirstLength()) == used
  {
  }

  lemma FirstTripIs(ram: Image, chains: seq<Chain>, k: nat)
    requires k <= |chains| && forall i :: 0 <= i < k ==> !Trips(ram, chains[i])
    requires k < |chains| ==> Trips(ram, chains[k])
    ensures FirstTrip(ram, chains) == k
  {
    hide Trips, FirstTrip;
  }

  /** Serving one more chain, after whatever was given back before. */
  lemma ServedNext(used: seq<UsedElem>, ram: Image, chains: seq<Chain>, k: nat, size: nat)
    requires k < |chains|
    ensures used + GivenBack(ServedOnly(ram, chains[..k + 1]), size, FirstLength())
         == (if Served(ram, chains[k]) && chains[k].head < size
             then used + GivenBack(ServedOnly(ram, chains[..k]), size, FirstLength())
                  + [UsedElem(chains[k].head, chains[k].descs[0].len)]
             else used + GivenBack(ServedOnly(ram, chains[..k]), size, FirstLength()))
  {
    hide GivenBack, Fits;
    assert chains[..k + 1][..k] == chains[..k];
    GivenBackOneMore(ServedOnly(ram, chains[..k]), chains[k], size);
  }

  lemma GivenBackOneMore(chains: seq<Chain>, c: Chain, size: nat)
    ensures GivenBack(chains + [c], size, FirstLength())
         == GivenBack(chains, size, FirstLength())
            + (if c.head < size then [UsedElem(c.head, FirstLength()(c))] else [])
  {
    assert (chains + [c])[..|chains|] == chains;
  }

  // ----- Which chains go back -----

  /** The chains that are served, in order: exactly those with a mapped first descriptor, each in its place. */
  lemma {:induction false} ServedExactly(ram: Image, chains: seq<Chain>, k: nat)
    requires k < |chains|
    ensures |ServedOnly(ram, chains[..k])| <= |ServedOnly(ram, chains)| <= |chains|
    ensures var at := |ServedOnly(ram, chains[..k])|;
            if chains[k].descs != [] && Fits(ram, chains[k].descs[0].addr, chains[k].descs[0].len)
            then at < |ServedOnly(ram, chains)| && ServedOnly(ram, chains)[at] == chains[k]
                 && |ServedOnly(ram, chains[..k + 1])| == at + 1
            else |ServedOnly(ram, chains[..k + 1])| == at
  {
    hide Fits;
    var last := |chains| - 1;
    assert chains[..k + 1][..k] == chains[..k];
    ServedIsShorter(ram, chains);
    if k == last {
      assert chains[..k + 1] == chains;
    } else {
      ServedExactly(ram, chains[..last], k);
      assert chains[..last][..k] == chains[..k] && chains[..last][..k + 1] == chains[..k + 1];
    }
  }

  lemma {:induction false} ServedIsShorter(ram: Image, chains: seq<Chain>)
    ensures |ServedOnly(ram, chains)| <= |chains|
  {
    if chains == [] {
    } else {
      ServedIsShorter(ram, chains[..|chains| - 1]);
    }
  }

  /** A served chain goes back with the length of its first descriptor. */
  lemma ServedLength(c: Chain)
    requires c.descs != []
    ensures FirstLength()(c) == c.descs[0].len
  {
  }
}
