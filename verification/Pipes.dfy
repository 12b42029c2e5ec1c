/** Pipes as a step system: every step is one turn of a loop in pipe_read or pipe_write, or a close,
    under the pipe's lock. */
module Pipes {

  const CAPACITY: nat := 4096

  type Octet = b: int | 0 <= b < 256

  /** The bytes in the pipe, who waits for data or for space, and what went through so far. */
  datatype State = State(data: seq<Octet>, writeClosed: bool, readClosed: bool, readers: set<nat>, writers: set<nat>,
                         written: seq<Octet>, taken: seq<Octet>)

  datatype Event =
    | Read(who: nat, n: nat, bytes: seq<Octet>)
    | EndOfFile(who: nat)
    | AwaitData(who: nat)
    | Write(who: nat, offered: seq<Octet>, k: nat)
    | Broken(who: nat)
    | AwaitSpace(who: nat)
    | CloseRead
    | CloseWrite

  function Smaller(a: nat, b: nat): nat { if a < b then a else b }

  ghost predicate Step(s: State, e: Event, t: State) {
    match e
    case Read(who, n, bytes) =>
      && who !in s.readers && |s.data| > 0 && bytes == s.data[..Smaller(n, |s.data|)]
      && t == s.(data := s.data[|bytes|..], taken := s.taken + bytes, writers := {})
    case EndOfFile(who) => who !in s.readers && |s.data| == 0 && s.writeClosed && t == s
    case AwaitData(who) =>
      who !in s.readers && |s.data| == 0 && !s.writeClosed && t == s.(readers := s.readers + {who})
    case Write(who, offered, k) =>
      && who !in s.writers && !s.readClosed && |s.data| < CAPACITY && k == Smaller(|offered|, CAPACITY - |s.data|)
      && t == s.(data := s.data + offered[..k], written := s.written + offered[..k], readers := {})
    case Broken(who) => who !in s.writers && s.readClosed && t == s
    case AwaitSpace(who) =>
      who !in s.writers && !s.readClosed && |s.data| >= CAPACITY && t == s.(writers := s.writers + {who})
    case CloseRead => t == s.(readClosed := true, writers := {})
    case CloseWrite => t == s.(writeClosed := true, readers := {})
  }

  const START := State([], false, false, {}, {}, [], [])

  /** Nothing is lost, doubled or reordered, and nobody waits for what is already there. */
  ghost predicate Inv(s: State) {
    && s.taken + s.data == s.written && |s.data| <= CAPACITY
    && (s.readers != {} ==> s.data == [] && !s.writeClosed)
    && (s.writers != {} ==> |s.data| == CAPACITY && !s.readClosed)
  }

  lemma StepKeepsInv(s: State, e: Event, t: State)
    requires Inv(s) && Step(s, e, t)
    ensures Inv(t)
  {
    match e
    case Read(_, _, bytes) => assert s.taken + (bytes + s.data[|bytes|..]) == t.taken + t.data;
    case Write(_, offered, k) => assert s.taken + (s.data + offered[..k]) == t.written;
    case _ =>
  }

  ghost predicate Run(ss: seq<State>, es: seq<Event>) {
    |ss| == |es| + 1 && ss[0] == START && forall i :: 0 <= i < |es| ==> Step(ss[i], es[i], ss[i + 1])
  }

  /** For every interleaving of steps. */
  lemma {:induction false} RunKeepsInv(ss: seq<State>, es: seq<Event>, n: nat)
    requires Run(ss, es) && n < |ss|
    ensures Inv(ss[n])
  {
    if n > 0 {
      RunKeepsInv(ss, es, n - 1);
      StepKeepsInv(ss[n - 1], es[n - 1], ss[n]);
    }
  }

  /** The bytes the readers got are the first bytes written, the rest is in the pipe. */
  lemma Delivered(ss: seq<State>, es: seq<Event>, n: nat)
    requires Run(ss, es) && n < |ss|
    ensures ss[n].taken <= ss[n].written && ss[n].data == ss[n].written[|ss[n].taken|..]
  {
    RunKeepsInv(ss, es, n);
  }

  /** Readers and writers never wait on each other. */
  lemma NoMutualWait(ss: seq<State>, es: seq<Event>, n: nat)
    requires Run(ss, es) && n < |ss|
    ensures ss[n].readers == {} || ss[n].writers == {}
    ensures ss[n].readers != {} ==> !ss[n].writeClosed && ss[n].data == []
    ensures ss[n].writers != {} ==> !ss[n].readClosed && |ss[n].data| == CAPACITY
  {
    RunKeepsInv(ss, es, n);
  }

  /** The bytes read in the first n events, and the bytes accepted from writers. */
  function ReadBy(es: seq<Event>): seq<Octet> {
    if es == [] then []
    else
      var e := es[|es| - 1];
      ReadBy(es[..|es| - 1]) + if e.Read? then e.bytes else []
  }

  function WrittenBy(es: seq<Event>): seq<Octet> {
    if es == [] then []
    else
      var e := es[|es| - 1];
      WrittenBy(es[..|es| - 1]) + if e.Write? && e.k <= |e.offered| then e.offered[..e.k] else []
  }

  /** What the calls returned and accepted, in order: a prefix of one another, with the pipe between. */
  lemma {:induction false} Fifo(ss: seq<State>, es: seq<Event>, n: nat)
    requires Run(ss, es) && n < |ss|
    ensures ReadBy(es[..n]) + ss[n].data == WrittenBy(es[..n])
  {
    History(ss, es, n);
    RunKeepsInv(ss, es, n);
  }

  lemma {:induction false} History(ss: seq<State>, es: seq<Event>, n: nat)
    requires Run(ss, es) && n < |ss|
    ensures ss[n].taken == ReadBy(es[..n]) && ss[n].written == WrittenBy(es[..n])
  {
    if n > 0 {
      History(ss, es, n - 1);
      assert es[..n][..n - 1] == es[..n - 1];
      assert Step(ss[n - 1], es[n - 1], ss[n]);
    }
  }

  // What the calls report.

  ghost predicate Before(es: seq<Event>, n: nat, e: Event) {
    exists k :: 0 <= k < n && k < |es| && es[k] == e
  }

  /** An end is closed if and only if somebody closed it. */
  lemma {:induction false} Closings(ss: seq<State>, es: seq<Event>, n: nat)
    requires Run(ss, es) && n < |ss|
    ensures ss[n].writeClosed <==> Before(es, n, CloseWrite)
    ensures ss[n].readClosed <==> Before(es, n, CloseRead)
  {
    if n > 0 {
      Closings(ss, es, n - 1);
      assert Step(ss[n - 1], es[n - 1], ss[n]);
    }
  }

  /** A reader is told the end only when the writing end was closed and every byte written has been read, and waits only
      while it is open; a writer is told of a broken pipe only when the reading end was closed. */
  lemma EndsTold(ss: seq<State>, es: seq<Event>, n: nat)
    requires Run(ss, es) && n < |es|
    ensures es[n].EndOfFile? ==> Before(es, n, CloseWrite) && ReadBy(es[..n]) == WrittenBy(es[..n])
    ensures es[n].AwaitData? ==> !Before(es, n, CloseWrite) && ReadBy(es[..n]) == WrittenBy(es[..n])
    ensures es[n].Broken? ==> Before(es, n, CloseRead)
    ensures es[n].Write? || es[n].AwaitSpace? ==> !Before(es, n, CloseRead)
  {
    Closings(ss, es, n);
    Fifo(ss, es, n);
    assert Step(ss[n], es[n], ss[n + 1]);
  }

  /** A read returns as much as was asked for or was there, a write accepts as much as was offered or had room. */
  lemma Greedy(ss: seq<State>, es: seq<Event>, n: nat)
    requires Run(ss, es) && n < |es|
    ensures es[n].Read? ==> (es[n].n > 0 ==> es[n].bytes != []) && (|es[n].bytes| == es[n].n || ss[n + 1].data == [])
    ensures es[n].Write? ==> es[n].k <= |es[n].offered| && (es[n].offered != [] ==> es[n].k > 0)
    ensures es[n].Write? ==> es[n].k == |es[n].offered| || |ss[n + 1].data| == CAPACITY
  {
    RunKeepsInv(ss, es, n);
    assert Step(ss[n], es[n], ss[n + 1]);
  }

  // The ring buffer.

  function At(pos: nat, i: nat): (k: nat)
    ensures k < CAPACITY
  {
    (pos + i) % CAPACITY
  }

  datatype Outcome = Got(bytes: seq<Octet>) | Accepted(k: nat) | End | Fail | Wait

  class Pipe {
    const buffer: array<Octet>
    var readPos: nat
    var writePos: nat
    var count: nat
    var writeClosed: bool
    var readClosed: bool
    var inUse: bool
    var dataWait: set<nat>
    var spaceWait: set<nat>
    ghost var written: seq<Octet>
    ghost var taken: seq<Octet>

    ghost predicate Ok()
      reads this, buffer
    {
      && buffer.Length == CAPACITY && readPos < CAPACITY && writePos < CAPACITY && count <= CAPACITY
      && writePos == At(readPos, count)
    }

    ghost function Data(): (d: seq<Octet>)
      requires Ok()
      reads this, buffer
      ensures |d| == count && forall i :: 0 <= i < count ==> d[i] == buffer[At(readPos, i)]
    {
      Slice(buffer[..], readPos, count)
    }

    ghost function S(): State
      requires Ok()
      reads this, buffer
    {
      State(Data(), writeClosed, readClosed, dataWait, spaceWait, written, taken)
    }

    ghost predicate Valid()
      reads this, buffer
    {
      Ok() && Inv(S())
    }

    /** pipe_create. */
    constructor ()
      ensures Valid() && S() == START && inUse && fresh(buffer)
    {
      buffer := new Octet[CAPACITY](_ => 0);
      readPos, writePos, count, writeClosed, readClosed, inUse := 0, 0, 0, false, false, true;
      dataWait, spaceWait, written, taken := {}, {}, [], [];
    }

    /** Takes m bytes out of the ring. */
    method TakeBytes(m: nat) returns (bytes: seq<Octet>)
      requires Ok() && m <= count
      modifies this`readPos, this`count
      ensures Ok() && bytes == old(Data())[..m] && Data() == old(Data())[m..]
    {
      hide At, Slice;
      ghost var p, d := readPos, Data();
      AtZero(p);
      bytes := [];
      for i := 0 to m
        invariant count == old(count) && readPos == At(p, i) && readPos < CAPACITY && bytes == d[..i]
      {
        bytes := bytes + [buffer[readPos]];
        AtAdd(p, i, 1);
        AtNext(readPos);
        readPos := (readPos + 1) % CAPACITY;
      }
      count := count - m;
      AtAdd(p, m, count);
      forall i | 0 <= i < count
        ensures Data()[i] == d[m..][i]
      {
        AtAdd(p, m, i);
      }
    }

    /** Puts the first k bytes into the ring. */
    method PutBytes(offered: seq<Octet>, k: nat)
      requires Ok() && k <= |offered| && count + k <= CAPACITY
      modifies this`writePos, this`count, buffer
      ensures Ok() && Data() == old(Data()) + offered[..k]
    {
      hide At, Slice;
      ghost var n, d := count, Data() + offered[..k];
      for i := 0 to k
        invariant count == n && writePos == At(readPos, n + i) && writePos < CAPACITY
        invariant forall j :: 0 <= j < n + i ==> buffer[At(readPos, j)] == d[j]
      {
        forall j | 0 <= j < n + i
          ensures At(readPos, j) != writePos
        {
          AtDistinct(readPos, j, n + i);
        }
        buffer[writePos] := offered[i];
        AtAdd(readPos, n + i, 1);
        AtNext(writePos);
        writePos := (writePos + 1) % CAPACITY;
      }
      count := count + k;
    }

    /** One turn of pipe_read's loop. */
    method ReadTurn(who: nat, n: nat) returns (r: Outcome)
      requires Valid() && who !in dataWait
      modifies this
      ensures Valid() && (r.Got? || r.End? || r.Wait?)
      ensures r.Got? ==> Step(old(S()), Read(who, n, r.bytes), S())
      ensures r.End? ==> Step(old(S()), EndOfFile(who), S())
      ensures r.Wait? ==> Step(old(S()), AwaitData(who), S())
    {
      hide At, Slice, Inv;
      ghost var s := S();
      if count > 0 {
        var bytes := TakeBytes(Smaller(n, count));
        taken := taken + bytes;
        spaceWait := {};
        StepKeepsInv(s, Read(who, n, bytes), S());
        return Got(bytes);
      }
      if writeClosed {
        StepKeepsInv(s, EndOfFile(who), S());
        return End;
      }
      dataWait := dataWait + {who};
      StepKeepsInv(s, AwaitData(who), S());
      return Wait;
    }

    /** One turn of pipe_write's loop. */
    method WriteTurn(who: nat, offered: seq<Octet>) returns (r: Outcome)
      requires Valid() && who !in spaceWait
      modifies this, buffer
      ensures Valid() && (r.Accepted? || r.Fail? || r.Wait?)
      ensures r.Accepted? ==> Step(old(S()), Write(who, offered, r.k), S())
      ensures r.Fail? ==> Step(old(S()), Broken(who), S())
      ensures r.Wait? ==> Step(old(S()), AwaitSpace(who), S())
    {
      hide At, Slice, Inv;
      ghost var s := S();
      if readClosed {
        StepKeepsInv(s, Broken(who), S());
        return Fail;
      }
      var space := CAPACITY - count;
      if space > 0 {
        var k := Smaller(|offered|, space);
        PutBytes(offered, k);
        written := written + offered[..k];
        dataWait := {};
        StepKeepsInv(s, Write(who, offered, k), S());
        return Accepted(k);
      }
      spaceWait := spaceWait + {who};
      StepKeepsInv(s, AwaitSpace(who), S());
      return Wait;
    }

    /** pipe_close_read. */
    method ShutRead()
      requires Valid()
      modifies this`readClosed, this`spaceWait, this`inUse
      ensures Valid() && Step(old(S()), CloseRead, S())
      ensures inUse == (old(inUse) && !writeClosed)
    {
      hide At, Slice, Inv;
      ghost var s := S();
      readClosed := true;
      spaceWait := {};
      if writeClosed {
        inUse := false;
      }
      StepKeepsInv(s, CloseRead, S());
    }

    /** pipe_close_write. */
    method ShutWrite()
      requires Valid()
      modifies this`writeClosed, this`dataWait, this`inUse
      ensures Valid() && Step(old(S()), CloseWrite, S())
      ensures inUse == (old(inUse) && !readClosed)
    {
      hide At, Slice, Inv;
      ghost var s := S();
      writeClosed := true;
      dataWait := {};
      if readClosed {
        inUse := false;
      }
      StepKeepsInv(s, CloseWrite, S());
    }
  }

  lemma AtZero(p: nat)
    requires p < CAPACITY
    ensures At(p, 0) == p
  {
  }

  lemma AtNext(p: nat)
    ensures At(p, 1) == (p + 1) % CAPACITY
  {
  }

  lemma AtAdd(p: nat, i: nat, j: nat)
    ensures At(At(p, i), j) == At(p, i + j)
  {
  }

  lemma AtDistinct(p: nat, i: nat, j: nat)
    requires i < j < CAPACITY
    ensures At(p, i) != At(p, j)
  {
  }

  ghost function Slice(b: seq<Octet>, pos: nat, n: nat): (d: seq<Octet>)
    requires |b| == CAPACITY && n <= CAPACITY
    ensures |d| == n && forall i :: 0 <= i < n ==> d[i] == b[At(pos, i)]
  {
    if n == 0 then [] else Slice(b, pos, n - 1) + [b[At(pos, n - 1)]]
  }
}
