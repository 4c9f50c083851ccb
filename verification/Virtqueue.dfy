/** A virtqueue as the devices see it: chains to take, and a used ring to give them back on. */
module Virtqueue {
  import opened Words

  datatype Descriptor = Descriptor(addr: U64, len: U32, writeOnly: bool)

  /** A chain the driver offers; D is how the device gets at its descriptors. */
  datatype ChainOf<D> = Chain(head: U16, descs: D)

  /** A chain whose descriptors do not change while the device works on it. */
  type Chain = ChainOf<seq<Descriptor>>

  datatype UsedElem = UsedElem(head: U16, len: U32)

  /** The heads of some chains, in order. */
  function Heads<D>(chains: seq<ChainOf<D>>): (hs: seq<U16>)
    ensures |hs| == |chains|
  {
    seq(|chains|, i requires 0 <= i < |chains| => chains[i].head)
  }

  function UsedHeads(used: seq<UsedElem>): (hs: seq<U16>)
    ensures |hs| == |used|
  {
    seq(|used|, i requires 0 <= i < |used| => used[i].head)
  }

  lemma HeadsCons<D>(chains: seq<ChainOf<D>>, k: nat)
    requires 0 < k <= |chains|
    ensures Heads(chains[..k]) == [chains[0].head] + Heads(chains[1..][..k - 1])
    ensures chains[..|chains|] == chains
  {
  }

  lemma UsedHeadsCons(u: UsedElem, used: seq<UsedElem>)
    ensures UsedHeads([u] + used) == [u.head] + UsedHeads(used)
  {
  }

  /** The heads that `add_used` accepts, in order. */
  function ValidHeads<D>(chains: seq<ChainOf<D>>, size: nat): (hs: seq<U16>) {
    if chains == [] then []
    else
      var before, last := ValidHeads(chains[..|chains| - 1], size), chains[|chains| - 1];
      if last.head < size then before + [last.head] else before
  }

  /** The used elements of some chains, given a length for each, when a refusal by `add_used` is ignored. */
  function GivenBack<D>(chains: seq<ChainOf<D>>, size: nat, len: ChainOf<D> -> U32): (us: seq<UsedElem>) {
    if chains == [] then []
    else
      var before, last := GivenBack(chains[..|chains| - 1], size, len), chains[|chains| - 1];
      if last.head < size then before + [UsedElem(last.head, len(last))] else before
  }

  /** Each chain is given back once, in order, unless its head is not a descriptor of the queue. */
  lemma {:induction false} GivenBackOnce<D>(chains: seq<ChainOf<D>>, size: nat, len: ChainOf<D> -> U32)
    ensures UsedHeads(GivenBack(chains, size, len)) == ValidHeads(chains, size)
  {
    if chains == [] {
    } else {
      GivenBackOnce(chains[..|chains| - 1], size, len);
    }
  }

  /** With every head a descriptor of the queue, chain i goes back i-th, with the length given for it. */
  lemma {:induction false} GivenBackAt<D>(chains: seq<ChainOf<D>>, size: nat, len: ChainOf<D> -> U32, i: nat)
    requires i < |chains| && forall j :: 0 <= j < |chains| ==> chains[j].head < size
    ensures |GivenBack(chains, size, len)| == |chains|
    ensures GivenBack(chains, size, len)[i] == UsedElem(chains[i].head, len(chains[i]))
  {
    var last := |chains| - 1;
    if last == 0 {
    } else {
      GivenBackAt(chains[..last], size, len, if i < last then i else 0);
    }
  }

  /** When every head is a descriptor of the queue nothing is dropped. */
  lemma {:induction false} AllHeadsValid<D>(chains: seq<ChainOf<D>>, size: nat)
    requires forall i :: 0 <= i < |chains| ==> chains[i].head < size
    ensures ValidHeads(chains, size) == Heads(chains)
  {
    if chains == [] {
    } else {
      AllHeadsValid(chains[..|chains| - 1], size);
    }
  }

  /** Giving back one more chain. */
  lemma GivenBackStep<D>(chains: seq<ChainOf<D>>, k: nat, size: nat, len: ChainOf<D> -> U32)
    requires k < |chains|
    ensures GivenBack(chains[..k + 1], size, len)
         == GivenBack(chains[..k], size, len)
            + (if chains[k].head < size then [UsedElem(chains[k].head, len(chains[k]))] else [])
  {
    assert chains[..k + 1][..k] == chains[..k];
  }

  /** Giving back one more chain, after whatever was given back before. */
  lemma GivenBackNext<D>(used: seq<UsedElem>, chains: seq<ChainOf<D>>, k: nat, size: nat, len: ChainOf<D> -> U32)
    requires k < |chains|
    ensures used + GivenBack(chains[..k + 1], size, len)
         == (if chains[k].head < size
             then used + GivenBack(chains[..k], size, len) + [UsedElem(chains[k].head, len(chains[k]))]
             else used + GivenBack(chains[..k], size, len))
  {
    hide GivenBack;
    GivenBackStep(chains, k, size, len);
  }

  lemma PushThenRest(used: seq<UsedElem>, u: UsedElem, rest: seq<UsedElem>)
    ensures (used + [u]) + rest == used + ([u] + rest)
  {
  }

  type Queue = QueueOf<seq<Descriptor>>

  class QueueOf<D> {
    const ready: bool
    const size: nat
    var avail: seq<ChainOf<D>>
    var used: seq<UsedElem>

    constructor (ready: bool, size: nat, avail: seq<ChainOf<D>>)
      ensures this.ready == ready && this.size == size && this.avail == avail && used == []
    {
      this.ready, this.size, this.avail, used := ready, size, avail, [];
    }

    /** `iter(mem)?.next()`: refuses a queue that is not ready, otherwise takes the next chain. */
    method Next() returns (ok: bool, chain: Option<ChainOf<D>>)
      modifies this
      ensures used == old(used)
      ensures ok == ready
      ensures !ok ==> chain == None && avail == old(avail)
      ensures ok && old(avail) == [] ==> chain == None && avail == []
      ensures ok && old(avail) != [] ==> chain == Some(old(avail)[0]) && avail == old(avail)[1..]
    {
      ok, chain := ready, None;
      if ok && avail != [] {
        chain, avail := Some(avail[0]), avail[1..];
      }
    }

    /** `add_used`: refuses a head outside the descriptor table. */
    method AddUsed(head: U16, len: U32) returns (ok: bool)
      modifies this
      ensures avail == old(avail)
      ensures ok == (head < size)
      ensures used == if ok then old(used) + [UsedElem(head, len)] else old(used)
    {
      ok := head < size;
      if ok {
        used := used + [UsedElem(head, len)];
      }
    }
  }
}
