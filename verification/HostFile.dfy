/** A host file as `std::fs::File` presents it: bytes, a position, holes that read as zero. */
module HostFile {
  import opened Words
  import opened WriteLog

  /**
   The first offset a seek is refused at.  `lseek` takes a signed 64-bit offset, so it is at most
   2^63; a file system that limits the size of its files refuses earlier.
   */
  type SeekLimit = n: nat | n <= 0x8000_0000_0000_0000

  /** The byte at offset i of the file extended with zeros for ever. */
  function View(disk: seq<Byte>, i: nat): Byte {
    if i < |disk| then disk[i] else 0
  }

  /** The position after `seek(SeekFrom::Start(offset))`; a refused seek leaves it alone. */
  function SeekTo(pos: nat, offset: nat, limit: SeekLimit): nat {
    if offset < limit then offset else pos
  }

  /** How many of n bytes a read at pos finds before the end of the file. */
  function Readable(disk: seq<Byte>, pos: nat, n: nat): (k: nat)
    ensures k <= n
  {
    if |disk| <= pos then 0 else if |disk| - pos < n then |disk| - pos else n
  }

  /** What `read_exact` leaves in a zeroed buffer, whether or not it reports success. */
  function ReadAt(disk: seq<Byte>, pos: nat, n: nat): (s: seq<Byte>)
    ensures |s| == n
  {
    seq<Byte>(n, i requires 0 <= i < n => View(disk, pos + i))
  }

  /** The file after `write_all`: it grows as needed, and a gap before pos reads as zero. */
  function WriteAt(disk: seq<Byte>, pos: nat, data: seq<Byte>): (r: seq<Byte>)
    ensures |r| >= |disk|
  {
    if data == [] then disk
    else
      var size := if |disk| < pos + |data| then pos + |data| else |disk|;
      seq(size, i requires 0 <= i < size => if pos <= i < pos + |data| then data[i - pos] else View(disk, i))
  }

  function WriteAll(disk: seq<Byte>, log: seq<Write>): (r: seq<Byte>) {
    if log == [] then disk
    else WriteAt(WriteAll(disk, log[..|log| - 1]), log[|log| - 1].addr, log[|log| - 1].data)
  }

  /** A file after any writes shows the last byte written to each offset, else what it showed before. */
  lemma {:induction false} LastWriteShows(disk: seq<Byte>, log: seq<Write>, i: nat)
    ensures View(WriteAll(disk, log), i) == LastByte(log, i).GetOr(View(disk, i))
  {
    if log == [] {
    } else {
      LastWriteShows(disk, log[..|log| - 1], i);
    }
  }

  /** A read yields the bytes of the file and zeros past its end; a write past the end leaves zeros in between. */
  lemma PastTheEnd(disk: seq<Byte>, pos: nat, n: nat, data: seq<Byte>, i: nat)
    ensures i < n ==> ReadAt(disk, pos, n)[i] == if pos + i < |disk| then disk[pos + i] else 0
    ensures data != [] && |disk| <= i < pos ==> i < |WriteAt(disk, pos, data)| && WriteAt(disk, pos, data)[i] == 0
  {
    if i < n {
      assert ReadAt(disk, pos, n)[i] == View(disk, pos + i);
    }
    if data != [] && |disk| <= i < pos {
      assert WriteAt(disk, pos, data)[i] == View(disk, i);
    }
  }

  lemma {:induction false} WriteAllConcat(disk: seq<Byte>, xs: seq<Write>, ys: seq<Write>)
    ensures WriteAll(disk, xs + ys) == WriteAll(WriteAll(disk, xs), ys)
  {
    if ys == [] {
      assert xs + ys == xs;
    } else {
      assert (xs + ys)[..|xs + ys| - 1] == xs + ys[..|ys| - 1];
      WriteAllConcat(disk, xs, ys[..|ys| - 1]);
    }
  }
}
