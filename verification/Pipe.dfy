/** Pipes: kernel/pipe.c. pi->lock is held from one sleep or return to the next, so a run is any
    sequence of turns; a turn is what one caller does before it sleeps or returns. wakeup empties
    the set of processes asleep on a channel. */
module Pipe {

  const PIPESIZE: nat := 512
  const WORD: nat := 0x1_0000_0000  // counters are 32 bits wide

  datatype Turn = Returns(count: nat) | Fails | Sleeps(done: nat)

  /** Where a turn of pipewrite ends: at a kill or with no reader left, at a full pipe, or done. */
  datatype Stop = Killed | Full | Done

  lemma SlotOfCounter(k: nat)
    ensures (k % WORD) % PIPESIZE == k % PIPESIZE
  {
  }

  /** Two counters that differ by at most PIPESIZE differ as much modulo 2^32. */
  lemma CountersTellFull(nread: nat, nwrite: nat)
    requires nread <= nwrite <= nread + PIPESIZE
    ensures nwrite % WORD == (nread % WORD + PIPESIZE) % WORD <==> nwrite == nread + PIPESIZE
    ensures nwrite % WORD == nread % WORD <==> nwrite == nread
  {
  }

  /** Within PIPESIZE consecutive positions no two share a slot. */
  lemma SlotsApart(lo: nat, hi: nat)
    requires hi < lo + PIPESIZE
    ensures forall k | lo <= k < hi :: k % PIPESIZE != hi % PIPESIZE
  {
  }

  /** Nothing stops the writer at byte k. */
  ghost predicate Goes(killed: nat -> bool, fault: nat -> bool, k: nat)
  {
    !killed(k) && !fault(k)
  }

  /** Before byte k of the write, which is not the first and for which an empty pipe has room so far, the
      writer is killed. */
  ghost predicate KilledMidway(start: nat, end: nat, killed: nat -> bool, fault: nat -> bool)
  {
    exists k :: start < k < end && k - start <= PIPESIZE && killed(k) && forall j | start <= j < k :: Goes(killed, fault, j)
  }

  /** A write that got to byte i and stopped there for another reason. */
  lemma NotMidway(start: nat, end: nat, i: nat, killed: nat -> bool, fault: nat -> bool)
    requires start <= i <= end && forall k | start <= k < i :: Goes(killed, fault, k)
    requires i == end || (!killed(i) && (i - start >= PIPESIZE || fault(i)))
    ensures !KilledMidway(start, end, killed, fault)
  {
    forall k | start < k < end && k - start <= PIPESIZE && killed(k) ensures exists j :: start <= j < k && !Goes(killed, fault, j) {
      assert k < i ==> Goes(killed, fault, k);
      assert i < k && !Goes(killed, fault, i);
    }
  }

  /** The byte at the front of the ring. */
  lemma TakeSlot(lo: nat, hi: nat, data: seq<bv8>, stored: seq<bv8>)
    requires lo < hi == |stored| && |data| == PIPESIZE && forall k | lo <= k < hi :: data[k % PIPESIZE] == stored[k]
    ensures data[(lo % WORD) % PIPESIZE] == stored[lo] && (lo % WORD + 1) % WORD == (lo + 1) % WORD
  {
    SlotOfCounter(lo);
  }

  /** The ring with byte hi put in its slot. */
  lemma PutSlot(lo: nat, hi: nat, data: seq<bv8>, stored: seq<bv8>, b: bv8)
    requires lo <= hi == |stored| < lo + PIPESIZE && |data| == PIPESIZE
    requires forall k | lo <= k < hi :: data[k % PIPESIZE] == stored[k]
    ensures (hi % WORD) % PIPESIZE == hi % PIPESIZE && (hi % WORD + 1) % WORD == (hi + 1) % WORD
    ensures forall k | lo <= k < hi + 1 :: data[hi % PIPESIZE := b][k % PIPESIZE] == (stored + [b])[k]
  {
    SlotOfCounter(hi);
    SlotsApart(lo, hi);
  }

  class Pipe {
    var data: array<bv8>
    var nread: nat
    var nwrite: nat
    var readopen: bool
    var writeopen: bool
    var readers: set<nat>  // processes asleep on &nread
    var writers: set<nat>  // processes asleep on &nwrite

    ghost var stored: seq<bv8>   // every byte ever put in
    ghost var removed: seq<bv8>  // every byte ever taken out

    /** The bytes taken out are a prefix of those put in, and the ring holds the rest. */
    ghost predicate Fifo()
      reads this, data
    {
      && data.Length == PIPESIZE
      && |removed| <= |stored| <= |removed| + PIPESIZE
      && removed == stored[..|removed|]
      && nread == |removed| % WORD && nwrite == |stored| % WORD
      && (forall k | |removed| <= k < |stored| :: data[k % PIPESIZE] == stored[k])
    }

    /** Between turns, writers sleep only on a full pipe that somebody can still read. */
    ghost predicate Valid()
      reads this, data
    {
      && Fifo()
      && (writers != {} ==> readopen && |stored| == |removed| + PIPESIZE)
      && (readers != {} ==> readopen)
    }

    /** No reader sleeps while there is something to read, or nobody left to write. */
    ghost predicate ReadersSound()
      reads this
    {
      readers != {} ==> |stored| == |removed| && writeopen
    }

    constructor ()
      ensures Valid() && ReadersSound() && stored == removed == [] && readers == writers == {}
      ensures readopen && writeopen && fresh(data)
    {
      data := new bv8[PIPESIZE];
      nread, nwrite, readopen, writeopen := 0, 0, true, true;
      readers, writers, stored, removed := {}, {}, [], [];
    }

    /** pipewrite's store of one byte. */
    method Put(b: bv8)
      requires Fifo() && |stored| < |removed| + PIPESIZE
      modifies this`nwrite, this`stored, data
      ensures Fifo() && stored == old(stored) + [b]
    {
      PutSlot(|removed|, |stored|, data[..], stored, b);
      data[nwrite % PIPESIZE] := b;
      nwrite := (nwrite + 1) % WORD;
      stored := stored + [b];
      assert data[..] == old(data[..])[(|stored| - 1) % PIPESIZE := b];
    }

    /** piperead's removal of one byte. */
    method Take() returns (b: bv8)
      requires Fifo() && |removed| < |stored|
      modifies this`nread, this`removed
      ensures Fifo() && removed == old(removed) + [b]
    {
      TakeSlot(|removed|, |stored|, data[..], stored);
      b := data[nread % PIPESIZE];
      nread := (nread + 1) % WORD;
      removed := removed + [b];
      assert stored[..|removed|] == stored[..|removed| - 1] + [b];
    }

    /** pipewrite from byte i on. killed and fault say what p->killed and copyin are at each byte. */
    method Write(pid: nat, bytes: seq<bv8>, start: nat, killed: nat -> bool, fault: nat -> bool) returns (r: Turn, ghost m: nat)
      requires Valid() && start <= |bytes|
      modifies this, data
      ensures Valid() && data == old(data)
      ensures start <= m <= |bytes| && stored == old(stored) + bytes[start..m] && removed == old(removed)
      ensures readopen == old(readopen) && writeopen == old(writeopen)
      ensures (forall k | start <= k < m :: Goes(killed, fault, k)) && (m > start ==> readopen)
      ensures match r
        case Returns(k) => k == m && (m == |bytes| || (fault(m) && !killed(m) && readopen))
                           && readers == {} && writers == old(writers)
        case Fails => m < |bytes| && (killed(m) || !readopen) && readers == old(readers) && writers == old(writers)
        case Sleeps(k) => k == m < |bytes| && !killed(m) && |stored| == |removed| + PIPESIZE
                          && readers == {} && writers == old(writers) + {pid}
      ensures old(ReadersSound()) ==>
        (ReadersSound() <==> !(old(readers) != {} && old(readopen) && KilledMidway(start, |bytes|, killed, fault)))
    {
      var i, stop := Copy(bytes, start, killed, fault);
      m := i;
      match stop
      case Killed =>
        assert killed(i) ==> !Goes(killed, fault, i);
        assert old(ReadersSound()) && old(readers) != {} && i > start ==> KilledMidway(start, |bytes|, killed, fault);
        return Fails, i;
      case Full =>
        if old(ReadersSound()) && readers != {} { NotMidway(start, |bytes|, i, killed, fault); }
        readers := {};
        writers := writers + {pid};
        return Sleeps(i), i;
      case Done =>
        NotMidway(start, |bytes|, i, killed, fault);
        readers := {};
        return Returns(i), i;
    }

    /** pipewrite's loop up to a return or a sleep. */
    method Copy(bytes: seq<bv8>, start: nat, killed: nat -> bool, fault: nat -> bool) returns (i: nat, stop: Stop)
      requires Fifo() && start <= |bytes|
      modifies this`nwrite, this`stored, data
      ensures Fifo() && start <= i <= |bytes| && stored == old(stored) + bytes[start..i] && (i > start ==> readopen)
      ensures forall k | start <= k < i :: Goes(killed, fault, k)
      ensures match stop
        case Killed => i < |bytes| && (killed(i) || !readopen)
        case Full => i < |bytes| && !killed(i) && readopen && |stored| == |removed| + PIPESIZE
        case Done => i == |bytes| || (fault(i) && !killed(i) && readopen)
    {
      i := start;
      while i < |bytes|
        invariant start <= i <= |bytes| && Fifo() && stored == old(stored) + bytes[start..i] && (i > start ==> readopen)
        invariant forall k | start <= k < i :: Goes(killed, fault, k)
      {
        if !readopen || killed(i) {
          return i, Killed;
        }
        CountersTellFull(|removed|, |stored|);
        if nwrite == (nread + PIPESIZE) % WORD {
          return i, Full;
        }
        if fault(i) {
          break;
        }
        Put(bytes[i]);
        i := i + 1;
      }
      return i, Done;
    }

    /** piperead's copy loop. A byte that copyout cannot deliver is taken out but not counted. */
    method Drain(n: nat, fault: nat -> bool) returns (count: nat, out: seq<bv8>)
      requires Fifo()
      modifies this`nread, this`removed
      ensures Fifo() && removed == old(removed) + out
      ensures |out| <= n && forall k | 0 <= k < count :: !fault(k)
      ensures if count == |out| then |out| == n || |removed| == |stored|
              else |out| == count + 1 && fault(count)
    {
      out := [];
      count := 0;
      while count < n
        invariant count == |out| <= n
        invariant Fifo() && removed == old(removed) + out
        invariant forall k | 0 <= k < count :: !fault(k)
      {
        CountersTellFull(|removed|, |stored|);
        if nread == nwrite {
          break;
        }
        var ch := Take();
        out := out + [ch];
        if fault(count) {
          break;
        }
        count := count + 1;
      }
    }

    /** piperead: sleep on an empty pipe that somebody may still write, else take what there is. */
    method Read(pid: nat, n: nat, killed: bool, fault: nat -> bool) returns (r: Turn, out: seq<bv8>)
      requires Valid() && readopen
      modifies this`nread, this`removed, this`readers, this`writers
      ensures Valid()
      ensures old(ReadersSound()) ==> ReadersSound()
      ensures removed == old(removed) + out
      ensures if old(|removed| == |stored| && writeopen) then
                && out == [] && writers == old(writers)
                && (if killed then r == Fails && readers == old(readers)
                    else r == Sleeps(0) && readers == old(readers) + {pid})
              else
                && writers == {} && readers == old(readers)
                && r.Returns? && |out| <= n && (forall k | 0 <= k < r.count :: !fault(k))
                && (if r.count == |out| then |out| == n || |removed| == |stored|
                    else |out| == r.count + 1 && fault(r.count))
    {
      CountersTellFull(|removed|, |stored|);
      if nread == nwrite && writeopen {
        if killed {
          return Fails, [];
        }
        readers := readers + {pid};
        return Sleeps(0), [];
      }
      var count;
      count, out := Drain(n, fault);
      writers := {};
      r := Returns(count);
    }

    /** pipeclose of one end; freed says that the page goes back to the allocator. A reader that
        sleeps keeps its end open. */
    method Close(writable: bool) returns (freed: bool)
      requires Valid() && (!writable ==> readers == {})
      modifies this`readopen, this`writeopen, this`readers, this`writers
      ensures Valid()
      ensures old(ReadersSound()) ==> ReadersSound()
      ensures writable ==> !writeopen && readopen == old(readopen) && readers == {} && writers == old(writers)
      ensures !writable ==> !readopen && writeopen == old(writeopen) && writers == {} && readers == old(readers)
      ensures freed <==> !readopen && !writeopen
    {
      if writable {
        writeopen := false;
        readers := {};
      } else {
        readopen := false;
        writers := {};
      }
      return !readopen && !writeopen;
    }
  }

  /** The exception in Write's contract happens: a writer killed after its first byte returns
      without waking the reader that waits for it. */
  method KilledWriterStrandsReader() returns (p: Pipe)
    ensures p.Valid() && p.readers == {1} && |p.stored| == 1 && p.removed == []
    ensures !p.ReadersSound()
  {
    p := new Pipe();
    var r, out := p.Read(1, 1, false, k => false);
    var killed := (k: nat) => k == 1;
    assert !killed(0) && killed(1);
    ghost var m;
    r, m := p.Write(2, [7, 8], 0, killed, k => false);
    assert m == 1;
  }
}
