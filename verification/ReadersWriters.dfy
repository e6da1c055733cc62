/** The readers and writers monitor (reader_writer_final.c): one mutex, two condition variables,
    any number of threads. Each method is what one thread does while it has the mutex; between
    WriterEnter and WriterLeave the writer keeps it. */
module ReadersWriters {
  class Monitor {
    var readersActive: int
    var writersWaiting: int
    var writerActive: bool

    ghost var reading: set<int>       // in the reader's critical section, without the mutex
    ghost var writing: set<int>       // in the writer's, with it
    ghost var readSleep: set<int>     // waiting on time_to_read
    ghost var readAwake: set<int>     // woken, and on the way back to the mutex
    ghost var writeSleep: set<int>    // waiting on time_to_write
    ghost var writeAwake: set<int>

    ghost predicate MutexFree()
      reads this
    {
      writing == {}
    }

    ghost predicate Valid()
      reads this
    {
      // the counters count
      && readersActive == |reading| && writersWaiting == |writeSleep| + |writeAwake|
      && writerActive == (writing != {}) && |writing| <= 1
      && writeSleep !! writeAwake
      // a writer excludes readers
      && (writing != {} ==> reading == {})
      // nobody is left behind
      && (MutexFree() && readSleep != {} ==> writersWaiting > 0)
      && (MutexFree() && writeSleep != {} ==> readersActive > 0 || writeAwake != {})
    }

    constructor ()
      ensures Valid() && MutexFree() && reading == {} && readSleep == {} && writeSleep == {}
    {
      readersActive, writersWaiting, writerActive := 0, 0, false;
      reading, writing, readSleep, readAwake, writeSleep, writeAwake := {}, {}, {}, {}, {}, {};
    }

    /** The reader's entry, from the mutex on, at first or after a wakeup. */
    method ReaderEnter(t: int) returns (entered: bool)
      requires Valid() && MutexFree() && t !in reading && t !in readSleep
      modifies this`readersActive, this`reading, this`readSleep, this`readAwake
      ensures Valid() && entered == (old(writersWaiting) == 0)
      ensures readAwake == old(readAwake) - {t}
      ensures if entered then reading == old(reading) + {t} && readSleep == old(readSleep)
              else reading == old(reading) && readSleep == old(readSleep) + {t}
    {
      readAwake := readAwake - {t};
      if writerActive || writersWaiting != 0 {
        readSleep := readSleep + {t};
        return false;
      }
      readersActive := readersActive + 1;
      reading := reading + {t};
      return true;
    }

    /** pthread_cond_signal wakes at least one waiting writer, if there is one. */
    method Signal(woken: set<int>)
      requires woken <= writeSleep && (writeSleep != {} ==> woken != {})
      requires writeSleep !! writeAwake
      modifies this`writeSleep, this`writeAwake
      ensures writeSleep == old(writeSleep) - woken && writeAwake == old(writeAwake) + woken
      ensures |writeSleep| + |writeAwake| == old(|writeSleep| + |writeAwake|)
      ensures writeSleep != {} ==> writeAwake != {}
      ensures writeSleep !! writeAwake
    {
      assert writeSleep == (writeSleep - woken) + woken;
      writeSleep, writeAwake := writeSleep - woken, writeAwake + woken;
    }

    /** The reader's exit. */
    method ReaderLeave(t: int, woken: set<int>)
      requires Valid() && MutexFree() && t in reading
      requires woken <= writeSleep && (writeSleep != {} ==> woken != {})
      modifies this`readersActive, this`reading, this`writeSleep, this`writeAwake
      ensures Valid() && reading == old(reading) - {t}
      ensures if reading == {} then writeAwake == old(writeAwake) + woken else writeAwake == old(writeAwake)
    {
      readersActive := readersActive - 1;
      reading := reading - {t};
      if readersActive == 0 {
        Signal(woken);
      }
    }

    /** The writer's entry: the first time it announces itself, and again after a wakeup. */
    method WriterEnter(t: int, again: bool) returns (entered: bool)
      requires Valid() && MutexFree() && t !in writeSleep && again == (t in writeAwake)
      modifies this`writersWaiting, this`writerActive, this`writing, this`writeSleep, this`writeAwake
      ensures Valid() && entered == (old(readersActive) == 0)
      ensures writeAwake == old(writeAwake) - {t}
      ensures if entered then writing == {t} && writeSleep == old(writeSleep)
              else writing == {} && writeSleep == old(writeSleep) + {t}
    {
      if !again {
        writersWaiting := writersWaiting + 1;
      }
      writeAwake := writeAwake - {t};
      if readersActive != 0 || writerActive {
        writeSleep := writeSleep + {t};
        return false;
      }
      writersWaiting := writersWaiting - 1;
      writerActive := true;
      writing := {t};
      return true;
    }

    /** The writer's exit: it hands over to a writer, or to all readers. */
    method WriterLeave(t: int, woken: set<int>)
      requires Valid() && writing == {t}
      requires woken <= writeSleep && (writeSleep != {} ==> woken != {})
      modifies this`writerActive, this`writing, this`readSleep, this`readAwake, this`writeSleep, this`writeAwake
      ensures Valid() && MutexFree()
      ensures if writersWaiting > 0 then readSleep == old(readSleep) && writeAwake == old(writeAwake) + woken
              else readSleep == {} && readAwake == old(readAwake) + old(readSleep)
    {
      writerActive := false;
      writing := {};
      if writersWaiting != 0 {
        Signal(woken);
      } else {
        readSleep, readAwake := {}, readAwake + readSleep;      // pthread_cond_broadcast
      }
    }

    /** A wait may also end on its own. */
    method SpuriousReader(t: int)
      requires Valid() && t in readSleep
      modifies this`readSleep, this`readAwake
      ensures Valid() && readSleep == old(readSleep) - {t} && readAwake == old(readAwake) + {t}
    {
      readSleep, readAwake := readSleep - {t}, readAwake + {t};
    }

    method SpuriousWriter(t: int)
      requires Valid() && t in writeSleep
      modifies this`writeSleep, this`writeAwake
      ensures Valid() && writeSleep == old(writeSleep) - {t} && writeAwake == old(writeAwake) + {t}
    {
      writeSleep, writeAwake := writeSleep - {t}, writeAwake + {t};
    }
  }
}
