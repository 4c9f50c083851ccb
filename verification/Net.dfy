/** virtio/net.rs: the transmit and receive queues. */
module Net {
  import opened Words
  import opened GuestMemory
  import opened WriteLog
  import opened Virtqueue

  // ----- Transmit -----

  /** The bytes of a packet: all descriptors of the chain in order, write-only ones too. */
  function Packet(ram: Image, ds: seq<Descriptor>): (buf: seq<Byte>) {
    if ds == [] then []
    else Packet(ram, ds[..|ds| - 1]) + ReadThrough(ram, ds[|ds| - 1].addr, ds[|ds| - 1].len)
  }

  function Packets(ram: Image, chains: seq<Chain>): (ps: seq<seq<Byte>>)
    ensures |ps| == |chains|
  {
    seq(|chains|, i requires 0 <= i < |chains| => Packet(ram, chains[i].descs))
  }

  function Length(ram: Image): Chain -> U32 {
    (c: Chain) => |Packet(ram, c.descs)| % U32_LIMIT
  }

  // ----- Receive -----

  /** What the non-blocking socket answers; asked beyond the end it would block. */
  datatype Answer = Datagram | WouldBlock | SocketError

  /** How many datagrams come before the socket first answers otherwise. */
  function Datagrams(answers: seq<Answer>): (k: nat)
    ensures k <= |answers|
    ensures forall i :: 0 <= i < k ==> answers[i].Datagram?
    ensures k < |answers| ==> !answers[k].Datagram?
  {
    if answers == [] || !answers[0].Datagram? then 0 else 1 + Datagrams(answers[1..])
  }

  function Zero(): Chain -> U32 {
    (c: Chain) => 0
  }

  class VirtioNet {
    const ram: Ram
    const rx: Queue
    const tx: Queue
    const hasPeer: bool
    var sent: seq<seq<Byte>>

    constructor (ram: Ram, rx: Queue, tx: Queue, hasPeer: bool)
      ensures this.ram == ram && this.rx == rx && this.tx == tx && this.hasPeer == hasPeer && sent == []
    {
      this.ram, this.rx, this.tx, this.hasPeer, sent := ram, rx, tx, hasPeer, [];
    }

    method Gather(ds: seq<Descriptor>) returns (buf: seq<Byte>)
      ensures buf == Packet(ram.bytes, ds)
    {
      hide ReadThrough, Fits;
      buf := [];
      for k := 0 to |ds|
        invariant buf == Packet(ram.bytes, ds[..k])
      {
        assert ds[..k + 1][..k] == ds[..k];
        var _, chunk := ram.ReadSlice(ds[k].addr, ds[k].len);
        buf := buf + chunk;
      }
      assert ds[..|ds|] == ds;
    }

    /** `process_tx_queue`: one datagram per chain, handed to the socket only when there is a peer. */
    method ProcessTxQueue() returns (ok: bool)
      modifies this, tx
      ensures ok == tx.ready
      ensures !ok ==> sent == old(sent) && tx.avail == old(tx.avail) && tx.used == old(tx.used)
      ensures ok ==>
                && tx.avail == []
                && sent == (if hasPeer then old(sent) + Packets(ram.bytes, old(tx.avail)) else old(sent))
                && tx.used == old(tx.used) + GivenBack(old(tx.avail), tx.size, Length(ram.bytes))
    {
      hide Packet, Packets, GivenBack;
      ghost var all, k := tx.avail, 0;
      NothingYet(ram.bytes, all, tx.size);
      while true
        invariant k <= |all| && tx.avail == all[k..]
        invariant sent == if hasPeer then old(sent) + Packets(ram.bytes, all[..k]) else old(sent)
        invariant tx.used == old(tx.used) + GivenBack(all[..k], tx.size, Length(ram.bytes))
        invariant !tx.ready ==> k == 0
        decreases |tx.avail|
      {
        var ready, next := tx.Next();
        if !ready { return false; }
        if next.None? { break; }
        var buf := Gather(next.value.descs);
        if hasPeer {
          sent := sent + [buf];
        }
        var _ := tx.AddUsed(next.value.head, |buf| % U32_LIMIT);
        GivenBackNext(old(tx.used), all, k, tx.size, Length(ram.bytes));
        PacketsNext(old(sent), ram.bytes, all, k);
        k := k + 1;
      }
      assert all[..k] == all;
      ok := true;
    }

    /**
     `process_rx_queue`, with the socket's answers given.  A chain is taken before the socket is
     asked, and given back, with length 0, only if there was a datagram: so when the socket stops
     answering with datagrams before the queue is empty, exactly the last chain taken is lost.
     */
    method ProcessRxQueue(answers: seq<Answer>) returns (outcome: Outcome)
      modifies rx
      ensures !rx.ready ==> outcome == Failed && rx.avail == old(rx.avail) && rx.used == old(rx.used)
      ensures rx.ready ==>
                var all, k := old(rx.avail), Datagrams(answers);
                if k < |all| then
                  && rx.used == old(rx.used) + GivenBack(all[..k], rx.size, Zero())
                  && rx.avail == all[k + 1..]
                  && outcome == if k < |answers| && answers[k].SocketError? then Failed else Done
                else
                  && rx.used == old(rx.used) + GivenBack(all, rx.size, Zero())
                  && rx.avail == [] && outcome == Done
    {
      hide GivenBack, Datagrams, Zero;
      ghost var all := rx.avail;
      var asked := 0;
      NoneYet(old(rx.used), all, rx.size);
      while true
        invariant asked <= |answers| && asked <= |all| && rx.avail == all[asked..]
        invariant forall i :: 0 <= i < asked ==> answers[i].Datagram?
        invariant rx.used == old(rx.used) + GivenBack(all[..asked], rx.size, Zero())
        invariant !rx.ready ==> asked == 0
        decreases |rx.avail|
      {
        var ready, next := rx.Next();
        if !ready { return Failed; }
        if next.None? { break; }
        if asked == |answers| || answers[asked].WouldBlock? {
          DatagramsAre(answers, asked);
          return Done;
        }
        if answers[asked].SocketError? {
          DatagramsAre(answers, asked);
          return Failed;
        }
        var _ := rx.AddUsed(next.value.head, 0);
        GivenBackNext(old(rx.used), all, asked, rx.size, Zero());
        ZeroIsZero(all[asked]);
        asked := asked + 1;
      }
      assert all[..asked] == all;
      DatagramsAtLeast(answers, asked);
      outcome := Done;
    }
  }

  lemma DatagramsAtLeast(answers: seq<Answer>, k: nat)
    requires k <= |answers| && forall i :: 0 <= i < k ==> answers[i].Datagram?
    ensures k <= Datagrams(answers)
  {
    hide Datagrams;
  }

  lemma DatagramsAre(answers: seq<Answer>, k: nat)
    requires k <= |answers| && forall i :: 0 <= i < k ==> answers[i].Datagram?
    requires k < |answers| ==> !answers[k].Datagram?
    ensures k == Datagrams(answers)
  {
    hide Datagrams;
  }

  lemma ZeroIsZero(c: Chain)
    ensures Zero()(c) == 0
  {
  }

  lemma NoneYet(used: seq<UsedElem>, chains: seq<Chain>, size: nat)
    ensures used + GivenBack(chains[..0], size, Zero()) == used
  {
  }

  lemma NothingYet(ram: Image, chains: seq<Chain>, size: nat)
    ensures Packets(ram, chains[..0]) == [] && GivenBack(chains[..0], size, Length(ram)) == []
  {
  }

  lemma PacketsNext(sent: seq<seq<Byte>>, ram: Image, chains: seq<Chain>, k: nat)
    requires k < |chains|
    ensures sent + Packets(ram, chains[..k + 1]) == sent + Packets(ram, chains[..k]) + [Packet(ram, chains[k].descs)]
  {
    hide Packet;
  }

  // ----- What a packet holds -----

  function TotalLen(ds: seq<Descriptor>): nat {
    if ds == [] then 0 else TotalLen(ds[..|ds| - 1]) + ds[|ds| - 1].len
  }

  /**
   A packet is as long as its descriptors together, and the memory of each mapped descriptor,
   write-only ones included, stands at the sum of the lengths before it.
   */
  lemma {:induction false} PacketHolds(ram: Image, ds: seq<Descriptor>, k: nat)
    ensures |Packet(ram, ds)| == TotalLen(ds)
    ensures k < |ds| ==>
              var at := TotalLen(ds[..k]);
              && at + ds[k].len <= |Packet(ram, ds)|
              && Packet(ram, ds)[at..at + ds[k].len] == ReadThrough(ram, ds[k].addr, ds[k].len)
  {
    hide ReadThrough;
    if ds == [] {
    } else if k >= |ds| - 1 {
      PacketHolds(ram, ds[..|ds| - 1], k);
    } else {
      PacketHolds(ram, ds[..|ds| - 1], k);
      assert ds[..|ds| - 1][..k] == ds[..k];
      var before, at := Packet(ram, ds[..|ds| - 1]), TotalLen(ds[..k]);
      assert Packet(ram, ds)[at..at + ds[k].len] == before[at..at + ds[k].len];
    }
  }

  /** Each chain goes back with the length of its packet, in 32 bits. */
  lemma PacketLength(ram: Image, c: Chain)
    ensures Length(ram)(c) == TotalLen(c.descs) % 0x1_0000_0000
  {
    PacketHolds(ram, c.descs, 0);
  }
}
