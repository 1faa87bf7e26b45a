/** Pipes, xv6-public/pipe.c. A call runs in sections, each under the pipe's lock and ended by a return
    or by sleep; any number of readers and writers take turns in any order. */
module Pipe {
  import opened Param
  import opened FsFormat

  const PIPESIZE := 512
  const WRAP := 0x1_0000_0000   // nread and nwrite are 32-bit

  datatype WriteResult = Wrote | Refused | WriterSleeps
  datatype ReadResult = Got(bytes: seq<Byte>) | ReadKilled | ReaderSleeps

  // The 32-bit counters tell full from not full, and the slots follow the unbounded counts.
  lemma Counters(r: nat, w: nat)
    requires r <= w <= r + PIPESIZE
    ensures w % WRAP == (r % WRAP + PIPESIZE) % WRAP <==> w == r + PIPESIZE
    ensures w % WRAP == r % WRAP <==> w == r
    ensures w % WRAP % PIPESIZE == w % PIPESIZE && r % WRAP % PIPESIZE == r % PIPESIZE
    ensures (w + 1) % WRAP == (w % WRAP + 1) % WRAP && (r + 1) % WRAP == (r % WRAP + 1) % WRAP
  {
    FullIff(r, w);
    EmptyIff(r, w);
    SlotOf(w);
    SlotOf(r);
  }

  lemma FullIff(r: nat, w: nat)
    requires r <= w <= r + PIPESIZE
    ensures w % WRAP == (r % WRAP + PIPESIZE) % WRAP <==> w == r + PIPESIZE
  {
  }

  lemma EmptyIff(r: nat, w: nat)
    requires r <= w <= r + PIPESIZE
    ensures w % WRAP == r % WRAP <==> w == r
  {
  }

  lemma SlotOf(w: nat)
    ensures w % WRAP % PIPESIZE == w % PIPESIZE && (w + 1) % WRAP == (w % WRAP + 1) % WRAP
  {
  }

  // Slots of distinct bytes in flight are distinct.
  lemma SlotsDistinct(k: nat, w: nat)
    requires k < w < k + PIPESIZE
    ensures k % PIPESIZE != w % PIPESIZE
  {
  }

  class Pipe {
    const data: array<Byte>
    var nread: nat
    var nwrite: nat
    var readopen: bool
    var writeopen: bool
    ghost var written: seq<Byte>    // all bytes ever written
    ghost var taken: nat            // how many of them have been read
    ghost var readers: set<Pid>     // asleep on &p->nread
    ghost var writers: set<Pid>     // asleep on &p->nwrite

    constructor ()
      ensures Valid() && fresh(data) && written == [] && taken == 0 && readopen && writeopen && readers == {}
              && writers == {}
    {
      data := new Byte[PIPESIZE];
      nread, nwrite, readopen, writeopen := 0, 0, true, true;
      written, taken, readers, writers := [], 0, {}, {};
    }

    // At most PIPESIZE bytes are in flight, and the buffer holds exactly those.
    ghost predicate Valid()
      reads this, data
    {
      && data.Length == PIPESIZE && taken <= |written| <= taken + PIPESIZE
      && nwrite == |written| % WRAP && nread == taken % WRAP
      && (forall k :: taken <= k < |written| ==> data[k % PIPESIZE] == written[k])
      && (writers != {} ==> Full() && readopen)
    }

    ghost predicate Full() reads this { |written| == taken + PIPESIZE }

    ghost predicate Empty() reads this { |written| == taken }

    // A reader asleep has missed nothing.
    ghost predicate ReadersOk() reads this { readers != {} ==> Empty() && writeopen }

    method Put(b: Byte)
      requires Valid() && !Full()
      modifies this`nwrite, this`written, data
      ensures data.Length == PIPESIZE && written == old(written) + [b] && nwrite == |written| % WRAP
      ensures forall k :: taken <= k < |written| ==> data[k % PIPESIZE] == written[k]
    {
      Counters(taken, |written|);
      ghost var w := |written|;
      data[nwrite % PIPESIZE] := b;
      nwrite := (nwrite + 1) % WRAP;
      written := written + [b];
      forall k | taken <= k < |written| ensures data[k % PIPESIZE] == written[k] {
        if k < w { SlotsDistinct(k, w); }
      }
    }

    // pipewrite from byte i of addr on, in process p.
    method WriteSection(p: Pid, addr: seq<Byte>, i: nat, killed: bool) returns (r: WriteResult, i': nat)
      requires Valid() && i <= |addr|
      modifies this`nwrite, this`written, this`readers, this`writers, data
      ensures Valid() && i <= i' <= |addr| && written == old(written) + addr[i..i']
      // What happens is decided by the room in the pipe, the reading end and killed.
      ensures var room := PIPESIZE - (|old(written)| - taken);
              && (r.Wrote? <==> |addr| - i <= room) && (r.Refused? <==> |addr| - i > room && (!readopen || killed))
              && i' == if r.Wrote? then |addr| else i + room
      ensures r.Wrote? ==> readers == {} && writers == old(writers)
      ensures r.Refused? ==> Full() && (!readopen || killed) && readers == old(readers) && writers == old(writers)
      ensures r.WriterSleeps? ==> Full() && readopen && !killed && readers == {} && writers == old(writers) + {p}
      // The readers asleep miss what is written exactly when it overfills the pipe and the writer gives up.
      ensures old(ReadersOk()) ==>
                (ReadersOk() <==> !(old(readers) != {} && |addr| - i > PIPESIZE && (!readopen || killed)))
    {
      i' := i;
      while i' < |addr|
        invariant i <= i' <= |addr| && Valid() && written == old(written) + addr[i..i']
        invariant readers == old(readers) && writers == old(writers)
      {
        Counters(taken, |written|);
        if nwrite == (nread + PIPESIZE) % WRAP {
          if !readopen || killed { return Refused, i'; }
          readers := {};
          writers := writers + {p};
          return WriterSleeps, i';
        }
        Put(addr[i']);
        i' := i' + 1;
      }
      readers := {};
      r := Wrote;
    }

    // piperead, in process p.
    method ReadSection(p: Pid, n: nat, killed: bool) returns (r: ReadResult)
      requires Valid()
      modifies this`nread, this`taken, this`readers, this`writers
      ensures Valid() && (old(ReadersOk()) ==> ReadersOk())
      // What happens is decided by what is in flight, the writing end and killed.
      ensures r.Got? <==> |written| > old(taken) || !writeopen
      ensures r.ReadKilled? <==> |written| == old(taken) && writeopen && killed
      ensures r.ReadKilled? ==> taken == old(taken) && readers == old(readers) && writers == old(writers)
      ensures r.ReaderSleeps? ==> taken == old(taken) && readers == old(readers) + {p} && writers == old(writers)
      // A read takes n bytes, or all there are if they are fewer, and wakes the writers.
      ensures r.Got? ==> |r.bytes| == if n <= |written| - old(taken) then n else |written| - old(taken)
      ensures r.Got? ==> taken == old(taken) + |r.bytes| && r.bytes == written[old(taken)..taken]
      ensures r.Got? ==> writers == {} && readers == old(readers)
    {
      Counters(taken, |written|);
      if nread == nwrite && writeopen {
        if killed { return ReadKilled; }
        readers := readers + {p};
        return ReaderSleeps;
      }
      var bytes := [];
      while |bytes| < n && nread != nwrite
        invariant |bytes| <= n && writers == old(writers) && readers == old(readers)
        invariant old(taken) <= taken <= |written| <= old(taken) + PIPESIZE && nread == taken % WRAP
                  && nwrite == |written| % WRAP
        invariant bytes == written[old(taken)..taken]
      {
        Counters(taken, |written|);
        bytes := bytes + [data[nread % PIPESIZE]];
        nread := (nread + 1) % WRAP;
        taken := taken + 1;
      }
      Counters(taken, |written|);
      writers := {};
      r := Got(bytes);
    }

    // freed: the pipe has no end left and its page is given back.
    method Close(writable: bool) returns (freed: bool)
      requires Valid()
      modifies this`readopen, this`writeopen, this`readers, this`writers
      ensures Valid() && (old(ReadersOk()) ==> ReadersOk())
      ensures writable ==> !writeopen && readers == {} && readopen == old(readopen) && writers == old(writers)
      ensures !writable ==> !readopen && writers == {} && writeopen == old(writeopen) && readers == old(readers)
      ensures freed <==> if writable then !old(readopen) else !old(writeopen)
    {
      if writable {
        writeopen := false;
        readers := {};
      } else {
        readopen := false;
        writers := {};
      }
      freed := !readopen && !writeopen;
    }

    // kill makes a sleeper runnable.
    ghost method Wake(p: Pid)
      requires Valid()
      modifies this`readers, this`writers
      ensures Valid() && (old(ReadersOk()) ==> ReadersOk()) && readers == old(readers) - {p}
              && writers == old(writers) - {p}
    {
      readers, writers := readers - {p}, writers - {p};
    }
  }

  // A reader sleeps through data that a killed writer left: the early return skips the wakeup.
  method LostWakeup(reader: Pid, writer: Pid) returns (pipe: Pipe)
    ensures pipe.Valid() && reader in pipe.readers && pipe.Full() && !pipe.ReadersOk()
  {
    pipe := new Pipe();
    var r := pipe.ReadSection(reader, 1, false);
    var w, i := pipe.WriteSection(writer, seq(PIPESIZE + 1, _ => 0), 0, true);
  }
}
