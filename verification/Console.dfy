/** virtio/console.rs: the transmit queue, from guest descriptors to the host's output. */
module Console {
  import opened Words
  import opened GuestMemory
  import opened Virtqueue

  /** What one descriptor contributes: nothing if only the device may write it. */
  function Piece(ram: Image, d: Descriptor): seq<Byte> {
    if d.writeOnly then [] else ReadThrough(ram, d.addr, d.len)
  }

  /** The bytes of a chain: its readable descriptors in order. */
  function Gathered(ram: Image, ds: seq<Descriptor>): (buf: seq<Byte>) {
    if ds == [] then [] else Gathered(ram, ds[..|ds| - 1]) + Piece(ram, ds[|ds| - 1])
  }

  function Output(ram: Image, chains: seq<Chain>): (out: seq<Byte>) {
    if chains == [] then [] else Output(ram, chains[..|chains| - 1]) + Gathered(ram, chains[|chains| - 1].descs)
  }

  /** The length returned for a chain, cut to 32 bits. */
  function Length(ram: Image): Chain -> U32 {
    (c: Chain) => |Gathered(ram, c.descs)| % U32_LIMIT
  }

  class VirtioConsole {
    const ram: Ram
    const tx: Queue
    var output: seq<Byte>

    constructor (ram: Ram, tx: Queue)
      ensures this.ram == ram && this.tx == tx && output == []
    {
      this.ram, this.tx, output := ram, tx, [];
    }

    method Gather(ds: seq<Descriptor>) returns (buf: seq<Byte>)
      ensures buf == Gathered(ram.bytes, ds)
    {
      hide ReadThrough, Fits;
      buf := [];
      for k := 0 to |ds|
        invariant buf == Gathered(ram.bytes, ds[..k])
      {
        assert ds[..k + 1][..k] == ds[..k];
        if !ds[k].writeOnly {
          var _, data := ram.ReadSlice(ds[k].addr, ds[k].len);
          buf := buf + data;
        }
      }
      assert ds[..|ds|] == ds;
    }

    /**
     `process_tx_queue`: takes every chain, output grows by exactly their readable bytes in
     order, and each chain goes back once.
     */
    method ProcessTxQueue() returns (ok: bool)
      modifies this, tx
      ensures ok == tx.ready
      ensures !ok ==> output == old(output) && tx.avail == old(tx.avail) && tx.used == old(tx.used)
      ensures ok ==>
                && tx.avail == []
                && output == old(output) + Output(ram.bytes, old(tx.avail))
                && tx.used == old(tx.used) + GivenBack(old(tx.avail), tx.size, Length(ram.bytes))
    {
      hide Gathered, GivenBack, Output;
      ghost var all, k := tx.avail, 0;
      NothingYet(ram.bytes, all, tx.size);
      while true
        invariant k <= |all| && tx.avail == all[k..]
        invariant output == old(output) + Output(ram.bytes, all[..k])
        invariant tx.used == old(tx.used) + GivenBack(all[..k], tx.size, Length(ram.bytes))
        invariant !tx.ready ==> k == 0
        decreases |tx.avail|
      {
        var ready, next := tx.Next();
        if !ready { return false; }
        if next.None? { break; }
        var buf := Gather(next.value.descs);
        if buf != [] {
          output := output + buf;
        } else {
          assert output + buf == output;
        }
        var _ := tx.AddUsed(next.value.head, |buf| % U32_LIMIT);
        GivenBackNext(old(tx.used), all, k, tx.size, Length(ram.bytes));
        OutputNext(old(output), ram.bytes, all, k);
        k := k + 1;
      }
      assert all[..k] == all;
      ok := true;
    }
  }

  lemma NothingYet(ram: Image, chains: seq<Chain>, size: nat)
    ensures Output(ram, chains[..0]) == [] && GivenBack(chains[..0], size, Length(ram)) == []
  {
  }

  lemma OutputNext(output: seq<Byte>, ram: Image, chains: seq<Chain>, k: nat)
    requires k < |chains|
    ensures output + Output(ram, chains[..k + 1]) == output + Output(ram, chains[..k]) + Gathered(ram, chains[k].descs)
  {
    hide Gathered;
    assert chains[..k + 1][..k] == chains[..k];
  }

  /** A readable mapped descriptor's memory stands in what the chain says behind the descriptors before it. */
  lemma {:induction false} GatheredIsMemory(ram: Image, ds: seq<Descriptor>, k: nat)
    requires k < |ds| && !ds[k].writeOnly && Fits(ram, ds[k].addr, ds[k].len)
    ensures var at := |Gathered(ram, ds[..k])|;
            && at + ds[k].len <= |Gathered(ram, ds)|
            && Gathered(ram, ds)[at..at + ds[k].len] == Fetch(ram, ds[k].addr, ds[k].len)
  {
    hide ReadThrough, Fetch, Fits;
    var before := ds[..|ds| - 1];
    if k == |ds| - 1 {
    } else {
      GatheredIsMemory(ram, before, k);
      assert before[..k] == ds[..k];
      var at := |Gathered(ram, ds[..k])|;
      assert Gathered(ram, ds)[at..at + ds[k].len] == Gathered(ram, before)[at..at + ds[k].len];
    }
  }

  /** The length of what a chain says: write-only descriptors say nothing. */
  function ReadableLen(ds: seq<Descriptor>): nat {
    if ds == [] then 0
    else ReadableLen(ds[..|ds| - 1]) + (if ds[|ds| - 1].writeOnly then 0 else ds[|ds| - 1].len)
  }

  /** A chain says as many bytes as its readable descriptors hold, and goes back with that length in 32 bits. */
  lemma {:induction false} GatheredLength(ram: Image, ds: seq<Descriptor>, head: U16)
    ensures |Gathered(ram, ds)| == ReadableLen(ds)
    ensures Length(ram)(Chain(head, ds)) == ReadableLen(ds) % 0x1_0000_0000
  {
    hide ReadThrough;
    if ds == [] {
    } else {
      GatheredLength(ram, ds[..|ds| - 1], head);
    }
  }

  function OutputLen(chains: seq<Chain>): nat {
    if chains == [] then 0 else OutputLen(chains[..|chains| - 1]) + ReadableLen(chains[|chains| - 1].descs)
  }

  lemma {:induction false} OutputLength(ram: Image, chains: seq<Chain>)
    ensures |Output(ram, chains)| == OutputLen(chains)
  {
    hide Gathered, ReadableLen;
    if chains == [] {
    } else {
      OutputLength(ram, chains[..|chains| - 1]);
      GatheredLength(ram, chains[|chains| - 1].descs, 0);
    }
  }

  /** The output is as long as all chains together, and each chain's bytes stand behind those of the ones before it. */
  lemma {:induction false} OutputHolds(ram: Image, chains: seq<Chain>, k: nat)
    ensures |Output(ram, chains)| == OutputLen(chains)
    ensures k < |chains| ==>
              var at, n := OutputLen(chains[..k]), ReadableLen(chains[k].descs);
              at + n <= |Output(ram, chains)| && Output(ram, chains)[at..at + n] == Gathered(ram, chains[k].descs)
  {
    hide Gathered, ReadableLen;
    OutputLength(ram, chains);
    if k < |chains| {
      var last := |chains| - 1;
      OutputLength(ram, chains[..k]);
      GatheredLength(ram, chains[k].descs, 0);
      if k < last {
        OutputHolds(ram, chains[..last], k);
        OutputLength(ram, chains[..last]);
        assert chains[..last][..k] == chains[..k];
        var before, at, n := Output(ram, chains[..last]), OutputLen(chains[..k]), ReadableLen(chains[k].descs);
        assert Output(ram, chains)[at..at + n] == before[at..at + n];
      }
    }
  }
}
