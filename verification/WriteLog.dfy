/** Sequences of writes and the byte the last of them left at an address. */
module WriteLog {
  import opened Words
  import opened GuestMemory

  datatype Write = Write(addr: nat, data: seq<Byte>) {
    predicate Covers(a: nat) {
      addr <= a < addr + |data|
    }
  }

  /** The byte the last write covering a put there. */
  function LastByte(log: seq<Write>, a: nat): (b: Option<Byte>) {
    if log == [] then None
    else
      var w := log[|log| - 1];
      if w.Covers(a) then Some(w.data[a - w.addr]) else LastByte(log[..|log| - 1], a)
  }

  /** Memory after every write of the log in order. */
  function ApplyAll(m: Image, log: seq<Write>): (r: Image)
    ensures r.Keys == m.Keys
    decreases |log|
  {
    if log == [] then m else ApplyAll(Store(m, log[0].addr, log[0].data), log[1..])
  }

  lemma {:induction false} LastByteConcat(xs: seq<Write>, ys: seq<Write>, a: nat)
    ensures LastByte(xs + ys, a) == if LastByte(ys, a).Some? then LastByte(ys, a) else LastByte(xs, a)
    decreases |ys|
  {
    if ys == [] {
      assert xs + ys == xs;
    } else {
      assert (xs + ys)[..|xs + ys| - 1] == xs + ys[..|ys| - 1];
      LastByteConcat(xs, ys[..|ys| - 1], a);
    }
  }

  /** Applying a log is last-writer-wins at every address. */
  lemma {:induction false} ApplyAllAt(m: Image, log: seq<Write>, a: nat)
    requires a in m
    ensures ApplyAll(m, log)[a] == LastByte(log, a).GetOr(m[a])
    decreases |log|
  {
    if log == [] {
    } else {
      var m1 := Store(m, log[0].addr, log[0].data);
      ApplyAllAt(m1, log[1..], a);
      assert log == [log[0]] + log[1..];
      LastByteConcat([log[0]], log[1..], a);
      assert [log[0]][..0] == [];
    }
  }

  lemma {:induction false} ApplyAllConcat(m: Image, xs: seq<Write>, ys: seq<Write>)
    ensures ApplyAll(m, xs + ys) == ApplyAll(ApplyAll(m, xs), ys)
    decreases |xs|
  {
    if xs == [] {
      assert xs + ys == ys;
    } else {
      assert (xs + ys)[1..] == xs[1..] + ys;
      ApplyAllConcat(Store(m, xs[0].addr, xs[0].data), xs[1..], ys);
    }
  }

  lemma {:induction false} UncoveredHasNoLastByte(log: seq<Write>, a: nat)
    requires forall i :: 0 <= i < |log| ==> !log[i].Covers(a)
    ensures LastByte(log, a) == None
  {
    if log == [] {
    } else {
      UncoveredHasNoLastByte(log[..|log| - 1], a);
    }
  }

  lemma {:induction false} CoveredHasLastByte(log: seq<Write>, k: nat, a: nat)
    requires k < |log| && log[k].Covers(a)
    ensures LastByte(log, a).Some?
  {
    if k == |log| - 1 {
    } else {
      CoveredHasLastByte(log[..|log| - 1], k, a);
    }
  }

  /** The last covering write decides the byte. */
  lemma {:induction false} LastByteIs(log: seq<Write>, k: nat, a: nat)
    requires k < |log| && log[k].Covers(a)
    requires forall i :: k < i < |log| ==> !log[i].Covers(a)
    ensures LastByte(log, a) == Some(log[k].data[a - log[k].addr])
  {
    if k == |log| - 1 {
    } else {
      LastByteIs(log[..|log| - 1], k, a);
    }
  }

  // ----- Writes that may fail -----

  datatype Outcome = Done | Failed | Panicked

  /** How a run of writes ended and the memory it left. */
  datatype Report = Report(outcome: Outcome, image: Image)

  /** Issue writes in order, stopping at the first that does not fit. */
  function RunWrites(m: Image, ws: seq<Write>): (r: Report)
    ensures r.image.Keys == m.Keys
    decreases |ws|
  {
    if ws == [] then Report(Done, m)
    else if Fits(m, ws[0].addr, |ws[0].data|) then RunWrites(Store(m, ws[0].addr, ws[0].data), ws[1..])
    else Report(Failed, WriteThrough(m, ws[0].addr, ws[0].data))
  }

  lemma SplitFirst<T>(s: seq<T>, i: nat)
    requires i < |s|
    ensures s[i..] == [s[i]] + s[i + 1..]
  {
  }

  lemma RunWritesStep(m: Image, w: Write, rest: seq<Write>)
    ensures RunWrites(m, [w] + rest)
         == if Fits(m, w.addr, |w.data|) then RunWrites(WriteThrough(m, w.addr, w.data), rest)
            else Report(Failed, WriteThrough(m, w.addr, w.data))
  {
    assert ([w] + rest)[1..] == rest;
  }

  lemma {:induction false} RunWritesConcat(m: Image, xs: seq<Write>, ys: seq<Write>)
    ensures var r := RunWrites(m, xs);
            RunWrites(m, xs + ys) == if r.outcome.Done? then RunWrites(r.image, ys) else r
    decreases |xs|
  {
    if xs == [] {
      assert xs + ys == ys;
    } else {
      assert (xs + ys)[1..] == xs[1..] + ys;
      RunWritesConcat(Store(m, xs[0].addr, xs[0].data), xs[1..], ys);
    }
  }

  predicate AllFit(m: Image, ws: seq<Write>) {
    forall i :: 0 <= i < |ws| ==> Fits(m, ws[i].addr, |ws[i].data|)
  }

  lemma {:induction false} RunWritesExactly(m: Image, ws: seq<Write>)
    ensures RunWrites(m, ws).outcome.Done? <==> AllFit(m, ws)
    ensures AllFit(m, ws) ==> RunWrites(m, ws).image == ApplyAll(m, ws)
    decreases |ws|
  {
    if ws == [] {
    } else {
      var m1 := Store(m, ws[0].addr, ws[0].data);
      RunWritesExactly(m1, ws[1..]);
      assert AllFit(m, ws) <==> Fits(m, ws[0].addr, |ws[0].data|) && AllFit(m1, ws[1..]);
    }
  }

  lemma {:induction false} RunWritesNeverPanics(m: Image, ws: seq<Write>)
    ensures RunWrites(m, ws).outcome != Panicked
    decreases |ws|
  {
    if ws == [] {
    } else {
      RunWritesNeverPanics(Store(m, ws[0].addr, ws[0].data), ws[1..]);
    }
  }

  lemma AllFitConcat(m: Image, xs: seq<Write>, ys: seq<Write>)
    ensures AllFit(m, xs + ys) <==> AllFit(m, xs) && AllFit(m, ys)
  {
    assert forall i :: 0 <= i < |xs| ==> (xs + ys)[i] == xs[i];
    assert forall i :: 0 <= i < |ys| ==> (xs + ys)[|xs| + i] == ys[i];
  }

  lemma RunWritesAt(m: Image, ws: seq<Write>, a: nat)
    requires RunWrites(m, ws).outcome.Done? && a in m
    ensures RunWrites(m, ws).image[a] == LastByte(ws, a).GetOr(m[a])
  {
    RunWritesExactly(m, ws);
    ApplyAllAt(m, ws, a);
  }

  /** A byte that no later write covers is still there at the end. */
  lemma LastWriteStays(m: Image, ws: seq<Write>, k: nat, a: nat)
    requires RunWrites(m, ws).outcome.Done?
    requires k < |ws| && ws[k].Covers(a)
    requires forall i :: k < i < |ws| ==> !ws[i].Covers(a)
    ensures HoldsByte(RunWrites(m, ws).image, a, ws[k].data[a - ws[k].addr])
  {
    RunWritesExactly(m, ws);
    assert Fits(m, ws[k].addr, |ws[k].data|);
    RunWritesAt(m, ws, a);
    LastByteIs(ws, k, a);
  }
}
