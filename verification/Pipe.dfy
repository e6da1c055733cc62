/** Pipes (pipe.c): a ring of bytes with 32-bit counters, and the processes asleep on it. Each
    method is what one process does between taking the lock and releasing it or falling asleep. */
module Pipe {
  const PIPESIZE := 512
  const WRAP := 0x1_0000_0000

  type Byte = x: int | 0 <= x < 256

  function Low(n: int): int { n % WRAP }

  function Slot(n: int): int { n % PIPESIZE }

  /** A 32-bit counter uses the same slot as the count it stands for, also after it has wrapped. */
  lemma SlotOfCounter(n: int)
    requires 0 <= n
    ensures Low(n) % PIPESIZE == Slot(n) && (Low(n) + 1) % WRAP == Low(n + 1)
  {}

  /** The tests for full and empty, with sums that wrap, are right about the counts. */
  lemma CounterTests(r: int, w: int)
    requires 0 <= r <= w <= r + PIPESIZE
    ensures Low(w) == Low(r) <==> w == r
    ensures Low(w) == (Low(r) + PIPESIZE) % WRAP <==> w == r + PIPESIZE
  {}

  lemma SlotsApart(p: int, q: int)
    requires p < q < p + PIPESIZE
    ensures Slot(p) != Slot(q)
  {}

  function Min(a: int, b: int): int { if a < b then a else b }

  function Max(a: int, b: int): int { if a < b then b else a }

  datatype WriteEnd = Wrote | WriteSleep | NoReader | WriterKilled
  datatype ReadEnd = Read | ReadSleep | ReaderKilled

  class Pipe {
    var data: array<Byte>
    var nread: int
    var nwrite: int
    var readopen: bool
    var writeopen: bool

    ghost var stored: seq<Byte>        // all bytes ever stored
    ghost var removed: seq<Byte>       // all bytes ever removed
    ghost var readers: set<int>        // asleep on &nread
    ghost var writers: set<int>        // asleep on &nwrite

    /** The ring holds the bytes that have been stored and not yet removed, and those that have
        been removed are the first ones stored. */
    ghost predicate Ring()
      reads this, data
    {
      && data.Length == PIPESIZE && |removed| <= |stored| <= |removed| + PIPESIZE
      && nread == Low(|removed|) && nwrite == Low(|stored|)
      && removed == stored[..|removed|]
      && forall k | |removed| <= k < |stored| :: data[Slot(k)] == stored[k]
    }

    ghost predicate Full()
      reads this
    {
      |stored| == |removed| + PIPESIZE
    }

    ghost predicate Empty()
      reads this
    {
      |stored| == |removed|
    }

    /** The bytes to be read, and the room for more of them. */
    ghost function Avail(): int
      reads this
    {
      |stored| - |removed|
    }

    ghost function Room(): int
      reads this
    {
      PIPESIZE - Avail()
    }

    /** Whenever the lock is free: a writer sleeps only on a full pipe that can still be read,
        a reader only on an empty pipe that can still be written. */
    ghost predicate Valid()
      reads this, data
    {
      && Ring()
      && (writers != {} ==> Full() && readopen)
      && (readers != {} ==> Empty() && writeopen)
    }

    constructor ()
      ensures Valid() && stored == [] && removed == [] && readopen && writeopen && readers == {} && writers == {}
      ensures fresh(data)
    {
      data := new Byte[PIPESIZE];
      nread, nwrite, readopen, writeopen := 0, 0, true, true;
      stored, removed, readers, writers := [], [], {}, {};
    }

    /** pipeclose; the pipe is freed when its second end is closed. */
    method Close(writable: bool) returns (freed: bool)
      requires Valid()
      modifies this`readopen, this`writeopen, this`readers, this`writers
      ensures Valid() && readopen == (old(readopen) && writable) && writeopen == (old(writeopen) && !writable)
      ensures if writable then readers == {} else writers == {}
      ensures freed <==> !readopen && !writeopen
    {
      if writable {
        writeopen := false;
        readers := {};
      } else {
        readopen := false;
        writers := {};
      }
      freed := !readopen && !writeopen;
    }

    /** Puts one byte into the ring and counts it. */
    method Store(ch: Byte)
      requires Ring() && !Full()
      modifies this`nwrite, this`stored, data
      ensures Ring() && stored == old(stored) + [ch]
    {
      SlotOfCounter(|stored|);
      forall k | |removed| <= k < |stored| ensures Slot(k) != Slot(|stored|) {
        SlotsApart(k, |stored|);
      }
      data[nwrite % PIPESIZE] := ch;
      nwrite := (nwrite + 1) % WRAP;
      stored := stored + [ch];
    }

    /** Takes the oldest byte out of the ring and counts it. */
    method Remove() returns (ch: Byte)
      requires Ring() && !Empty()
      modifies this`nread, this`removed
      ensures Ring() && ch == stored[|old(removed)|] && removed == old(removed) + [ch]
    {
      SlotOfCounter(|removed|);
      ch := data[nread % PIPESIZE];
      nread := (nread + 1) % WRAP;
      removed := removed + [ch];
    }

    /** How a pipewrite of n bytes, i of them stored before, ends when the ring has this room: at
        which byte, and why there. */
    ghost predicate Exit(end: WriteEnd, i': nat, n: nat, i: nat, bad: int, kill: int, room: int)
      reads this`readopen
    {
      match end
      case NoReader => i' == i < n && !readopen
      case WriterKilled => i' == Max(i, kill) < n && readopen && i' <= bad && i' - i <= room
      case WriteSleep => i' == i + room < n && readopen && i' < kill && i' <= bad
      case Wrote => i' == Min(n, bad) && (i < n ==> readopen) && i' - i <= room && (i' == i || i' <= kill)
                    && (i' < n ==> i' < kill && i' - i < room)
    }

    /** The body of pipewrite. */
    method Fill(w: int, src: seq<Byte>, i: nat, bad: int, kill: int) returns (i': nat, end: WriteEnd)
      requires Ring() && i <= |src| && i <= bad
      modifies this`nwrite, this`stored, this`readers, this`writers, data
      ensures Ring() && i <= i' <= |src| && stored == old(stored) + src[i..i']
      ensures Exit(end, i', |src|, i, bad, kill, old(Room()))
      ensures readers == if end == NoReader || end == WriterKilled then old(readers) else {}
      ensures writers == old(writers) + if end == WriteSleep then {w} else {}
    {
      i' := i;
      while i' < |src|
        invariant Ring() && i <= i' <= |src| && i' <= bad && stored == old(stored) + src[i..i']
        invariant Room() == old(Room()) - (i' - i)
        invariant i' > i ==> readopen && i' <= kill
        invariant writers == old(writers) && readers == old(readers) && (i' == i ==> stored == old(stored))
      {
        if !readopen {
          return i', NoReader;
        }
        if kill <= i' {
          return i', WriterKilled;
        }
        CounterTests(|removed|, |stored|);
        if nwrite == (nread + PIPESIZE) % WRAP {
          readers := {};                   // wakeup(&pi->nread)
          writers := writers + {w};        // sleep(&pi->nwrite, &pi->lock)
          return i', WriteSleep;
        }
        if i' == bad {
          break;
        }
        Store(src[i']);
        i' := i' + 1;
      }
      readers := {};                       // wakeup(&pi->nread)
      return i', Wrote;
    }

    /** pipewrite by process w, from the lock or a wakeup on: i bytes of src are already in the
        pipe, byte number `bad` cannot be copied from the user, and from byte number `kill` on w
        finds that it has been killed. That exit wakes nobody: if a reader is asleep and the exit
        comes after a byte has been stored, the reader stays asleep on a pipe that is not empty. */
    method Write(w: int, src: seq<Byte>, i: nat, bad: int, kill: int) returns (i': nat, end: WriteEnd)
      requires Valid() && i <= |src| && i <= bad
      modifies this`nwrite, this`stored, this`readers, this`writers, data
      ensures Ring() && i <= i' <= |src| && stored == old(stored) + src[i..i']
      ensures Exit(end, i', |src|, i, bad, kill, old(Room()))
      ensures readers == if end == NoReader || end == WriterKilled then old(readers) else {}
      ensures writers == old(writers) + if end == WriteSleep then {w} else {}
      ensures Valid() <==> !(readopen && old(readers) != {} && i < kill < |src| && kill <= bad && kill - i <= PIPESIZE)
    {
      i', end := Fill(w, src, i, bad, kill);
    }

    /** piperead by process r, from the lock or a wakeup on; byte number `bad` cannot be copied
        to the user. If it is asked for and is there, it is removed and not returned: it is lost. */
    method Receive(r: int, n: nat, bad: nat, killed: bool) returns (out: seq<Byte>, end: ReadEnd)
      requires Valid()
      modifies this`nread, this`removed, this`readers, this`writers
      ensures Valid() && |removed| >= |old(removed)| && removed[..|old(removed)|] == old(removed)
      ensures end == ReadSleep <==> old(Empty()) && writeopen && !killed
      ensures end == ReaderKilled <==> old(Empty()) && writeopen && killed
      ensures end == ReaderKilled ==>
                out == [] && removed == old(removed) && readers == old(readers) && writers == old(writers)
      ensures end == ReadSleep ==> out == [] && removed == old(removed) && readers == old(readers) + {r}
      ensures end == Read ==>
                && readers == old(readers) && writers == {}
                && |out| == (if bad < n && bad < old(Avail()) then bad else Min(n, old(Avail())))
                && |removed| - |old(removed)| - |out| == (if bad < n && bad < old(Avail()) then 1 else 0)
                && out == removed[|old(removed)|..][..|out|]
    {
      CounterTests(|removed|, |stored|);
      out := [];
      if nread == nwrite && writeopen {
        if killed {
          return out, ReaderKilled;
        }
        readers := readers + {r};          // sleep(&pi->nread, &pi->lock)
        return out, ReadSleep;
      }
      var i := 0;
      while i < n
        invariant Ring() && |out| == i <= n && i <= bad && |removed| == |old(removed)| + i
        invariant removed == old(removed) + out && readers == old(readers) && writers == old(writers)
      {
        CounterTests(|removed|, |stored|);
        if nread == nwrite {
          break;
        }
        var ch := Remove();
        if i == bad {
          break;
        }
        out := out + [ch];
        i := i + 1;
      }
      writers := {};                       // wakeup(&pi->nwrite)
      end := Read;
    }
  }

  /** A reader sleeps on an empty pipe; a writer of two bytes is killed after the first, and the
      reader sleeps on. */
  method LostWakeup() returns (p: Pipe)
    ensures fresh(p) && !p.Valid() && p.readers == {1} && !p.Empty() && p.writeopen
  {
    p := new Pipe();
    var out, asleep := p.Receive(1, 1, 1, false);
    var i, end := p.Write(2, [0, 0], 0, 2, 1);
  }

  /** Of two bytes in a pipe the first cannot be copied to the user: the reader is told of none,
      and only the second is left. */
  method LostByte() returns (p: Pipe, out: seq<Byte>)
    ensures fresh(p) && p.Valid() && p.stored == [1, 2] && p.removed == [1] && out == []
  {
    p := new Pipe();
    var i, end := p.Write(1, [1, 2], 0, 2, 2);
    var got;
    out, got := p.Receive(2, 2, 0, false);
  }
}
