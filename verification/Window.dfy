/**
 One platform window of the simulated harness: the AXI bridge, the FIFO behind it, and the driver
 of axi4.cpp that moves the pins one clock cycle at a time. In the platform-to-core window the
 bridge sits on the FIFO's write port, in the core-to-platform window on its read port. Both
 clocks rise together; what the core does on the other port and what each synchronizer captures
 in mid-change are arbitrary constants of the run.
 */
module Window {

  import opened Words
  import opened FifoModel
  import opened FifoRefinement
  import opened Axi2Ram
  import opened Credit
  import opened History
  import AsyncFifo
  import Dpram
  import FifoStatus
  import GrayCode

  /** What the bridge does on its RAM side in one cycle. */
  datatype Access = NoAccess | WriteTo(addr: nat, word: Word, be: seq<bool>) | ReadFrom(addr: nat) | Clash

  function AccessOf(p: RamPins): Access {
    if p.wren && p.rden then Clash
    else if p.wren then WriteTo(p.addr, p.wdata, p.be)
    else if p.rden then ReadFrom(p.addr)
    else NoAccess
  }

  /** Return codes of the driver. */
  datatype Code = Success | Failure | AddrNotAligned

  datatype AxiBurst = Fixed | Incr | Wrap | Reserved

  /** The size of a request is a whole number of words, so only its address can be misaligned. */
  predicate IsAligned(addr: nat, granule: nat) {
    granule > 0 && addr % granule == 0
  }

  /** The address of beat k. */
  function AddrAt(addr: nat, n: nat, mode: AxiBurst, k: nat): nat {
    if k == 0 || mode.Fixed? then addr else NextAddr(AddrAt(addr, n, mode, k - 1), n)
  }

  /** The next word address; addresses are as wide as words. */
  function NextAddr(addr: nat, n: nat): nat {
    (addr + n) % Range(n)
  }

  lemma AlignedIs(addr: nat, granule: nat)
    ensures IsAligned(addr, granule) <==> granule > 0 && addr % granule == 0
  {}

  /** Beat k of an incrementing transfer goes to the address k words up, in as many bits as a word has. */
  lemma {:induction false} AddrAtIs(addr: nat, n: nat, mode: AxiBurst, k: nat)
    requires (n == 4 || n == 8) && addr < Range(n)
    ensures AddrAt(addr, n, mode, k) == if mode.Fixed? then addr else (addr + k * n) % Range(n)
  {
    Ranges();
    hide Range;
    if k > 0 && !mode.Fixed? {
      AddrAtIs(addr, n, mode, k - 1);
      WrapTwice(addr + (k - 1) * n, n);
      assert addr + (k - 1) * n + n == addr + k * n;
    }
  }

  lemma WrapTwice(x: nat, n: nat)
    requires n == 4 || n == 8
    ensures (x % Range(n) + n) % Range(n) == (x + n) % Range(n)
  {
    Ranges();
    hide Range;
    if n == 4 {
      assert (x % 0x1_0000_0000 + 4) % 0x1_0000_0000 == (x + 4) % 0x1_0000_0000;
    } else {
      assert (x % 0x1_0000_0000_0000_0000 + 8) % 0x1_0000_0000_0000_0000 == (x + 8) % 0x1_0000_0000_0000_0000;
    }
  }

  lemma Ranges()
    ensures Range(4) == 0x1_0000_0000 && Range(8) == 0x1_0000_0000_0000_0000
  {
    assert Range(1) == 0x100 && Range(2) == 0x1_0000 && Range(3) == 0x100_0000 && Range(4) == 0x1_0000_0000;
    assert Range(5) == 0x100_0000_0000 && Range(6) == 0x1_0000_0000_0000 && Range(7) == 0x100_0000_0000_0000;
  }

  /** What a full-word write beat does on the RAM side. */
  function WriteTrace(addr: nat, word: Word): seq<Access> {
    [NoAccess, NoAccess, WriteTo(addr, word, Dpram.AllOnes(|word|)), NoAccess, NoAccess]
  }

  /** What a read beat does on the RAM side. */
  function ReadTrace(addr: nat): seq<Access> {
    [NoAccess, NoAccess, ReadFrom(addr), NoAccess]
  }

  /** The first k beats of a write. */
  function WriteTraces(addr: nat, n: nat, mode: AxiBurst, data: seq<Word>, k: nat): seq<Access>
    requires k <= |data|
  {
    if k == 0 then []
    else WriteTraces(addr, n, mode, data, k - 1) + WriteTrace(AddrAt(addr, n, mode, k - 1), data[k - 1])
  }

  lemma NoTraces(addr: nat, n: nat, mode: AxiBurst, data: seq<Word>)
    ensures WriteTraces(addr, n, mode, data, 0) == []
  {}

  lemma OneTrace(addr: nat, n: nat, mode: AxiBurst, data: seq<Word>, k: nat, before: seq<Access>)
    requires k < |data|
    ensures before + WriteTraces(addr, n, mode, data, k + 1)
         == (before + WriteTraces(addr, n, mode, data, k)) + WriteTrace(AddrAt(addr, n, mode, k), data[k])
  {
    hide AddrAt, WriteTrace;
  }

  lemma MoveOne(before: seq<Word>, data: seq<Word>, k: nat)
    requires k < |data|
    ensures (before + data[..k]) + [data[k]] == before + data[..k + 1]
  {}

  function ReadTraces(addr: nat, n: nat, mode: AxiBurst, words: nat): seq<Access> {
    if words == 0 then []
    else ReadTraces(addr, n, mode, words - 1) + ReadTrace(AddrAt(addr, n, mode, words - 1))
  }

  lemma NoReadTraces(addr: nat, n: nat, mode: AxiBurst)
    ensures ReadTraces(addr, n, mode, 0) == []
  {}

  lemma OneReadTrace(addr: nat, n: nat, mode: AxiBurst, k: nat, before: seq<Access>)
    ensures before + ReadTraces(addr, n, mode, k + 1)
         == (before + ReadTraces(addr, n, mode, k)) + ReadTrace(AddrAt(addr, n, mode, k))
  {
    hide AddrAt, ReadTrace;
  }

  /** The accesses that reach the RAM side. */
  function Strobes(trace: seq<Access>): seq<Access> {
    if trace == [] then []
    else
      var k := |trace| - 1;
      Strobes(trace[..k]) + if trace[k].NoAccess? then [] else [trace[k]]
  }

  lemma {:induction false} StrobesConcat(a: seq<Access>, b: seq<Access>)
    ensures Strobes(a + b) == Strobes(a) + Strobes(b)
  {
    if b == [] {
      assert a + b == a;
    } else {
      var k := |b| - 1;
      StrobesConcat(a, b[..k]);
      assert (a + b)[..|a + b| - 1] == a + b[..k];
    }
  }

  lemma StrobesOfBeats(addr: nat, word: Word)
    ensures Strobes(WriteTrace(addr, word)) == [WriteTo(addr, word, Dpram.AllOnes(|word|))]
    ensures Strobes(ReadTrace(addr)) == [ReadFrom(addr)]
  {
    var w, x := WriteTo(addr, word, Dpram.AllOnes(|word|)), ReadFrom(addr);
    assert WriteTrace(addr, word) == [NoAccess] + ([NoAccess] + ([w] + ([NoAccess] + [NoAccess])));
    assert ReadTrace(addr) == [NoAccess] + ([NoAccess] + ([x] + [NoAccess]));
    StrobesConcat([NoAccess], [NoAccess] + ([w] + ([NoAccess] + [NoAccess])));
    StrobesConcat([NoAccess], [w] + ([NoAccess] + [NoAccess]));
    StrobesConcat([w], [NoAccess] + [NoAccess]);
    StrobesConcat([NoAccess], [NoAccess] + ([x] + [NoAccess]));
    StrobesConcat([NoAccess], [x] + [NoAccess]);
    StrobesConcat([x], [NoAccess]);
    StrobesConcat([NoAccess], [NoAccess]);
  }

  /** An n-word write takes 5n cycles and strobes exactly its n words, in order, at the beat addresses. */
  lemma {:induction false} WriteStrobes(addr: nat, n: nat, mode: AxiBurst, data: seq<Word>, k: nat)
    requires k <= |data|
    ensures |WriteTraces(addr, n, mode, data, k)| == 5 * k
    ensures Strobes(WriteTraces(addr, n, mode, data, k))
         == seq(k, i requires 0 <= i < k => WriteTo(AddrAt(addr, n, mode, i), data[i], Dpram.AllOnes(|data[i]|)))
  {
    hide AddrAt;
    if k > 0 {
      WriteStrobes(addr, n, mode, data, k - 1);
      StrobesConcat(WriteTraces(addr, n, mode, data, k - 1), WriteTrace(AddrAt(addr, n, mode, k - 1), data[k - 1]));
      StrobesOfBeats(AddrAt(addr, n, mode, k - 1), data[k - 1]);
    } else {
    }
  }

  /** An n-word read takes 4n cycles and strobes exactly n times: no word is popped twice. */
  lemma {:induction false} ReadStrobes(addr: nat, n: nat, mode: AxiBurst, words: nat)
    ensures |ReadTraces(addr, n, mode, words)| == 4 * words
    ensures Strobes(ReadTraces(addr, n, mode, words))
         == seq(words, k requires 0 <= k => ReadFrom(AddrAt(addr, n, mode, k)))
  {
    if words > 0 {
      ReadStrobes(addr, n, mode, words - 1);
      StrobesConcat(ReadTraces(addr, n, mode, words - 1), ReadTrace(AddrAt(addr, n, mode, words - 1)));
      StrobesOfBeats(AddrAt(addr, n, mode, words - 1), []);
    }
  }

  class Window {
    const ptc: bool                       // platform-to-core, or core-to-platform
    const bridge: Bridge
    const fifo: AsyncFifo.Fifo
    const around: Surroundings
    var t: nat                            // cycles so far
    var m: Master                         // the driver's pins

    ghost var trace: seq<Access>          // what happened on the RAM side
    ghost var credit: nat                 // transfers promised by the last status word
    ghost var quiet: nat                  // cycles since the last transfer request
    ghost var refused: nat                // status words so far that reported nothing to move
    ghost var log: seq<Event>             // what happened in the FIFO

    /** Both resets asserted, and the driver's pins low. */
    constructor (ptc: bool, aw: nat, n: nat, around: Surroundings)
      requires 3 <= aw && Capacity(aw) <= 4095 && 4 <= n && AsyncFifo.DataAddr(aw, n) != 0
      requires forall k :: CoreWired(aw, n, around, k)
      ensures Valid() && fresh(bridge) && fresh(fifo) && fresh(fifo.ram) && fresh(fifo.ram.mem)
      ensures this.ptc == ptc && fifo.aw == aw && fifo.n == n && this.around == around
      ensures Resting() && quiet >= 3 && fifo.abs == Reset(Capacity(aw)) && fifo.popped == []
      ensures t == 0 && trace == [] && refused == 0
    {
      this.ptc, this.around := ptc, around;
      bridge := new Bridge(Range(n));
      fifo := new AsyncFifo.Fifo(aw, n);
      t, trace, credit, quiet, refused, log := 0, [], 0, 3, 0, [];
      m := Master(0, false, ToWord(n, 0), seq(n, _ => false), false, false, false, 0, 0, 0, 0, false, false);
      NothingLogged(ptc, aw, n, around);
    }

    /** Between transactions: the bridge is idle and the driver requests nothing. */
    ghost predicate Resting()
      reads this, bridge
    {
      bridge.Idle() && !m.awvalid && !m.wvalid && !m.bready && !m.arvalid && !m.rready
    }

    ghost predicate Valid()
      reads this, bridge, fifo, fifo.ram, fifo.ram.mem
    {
      && bridge.range > 0 && fifo.Valid()
      && |m.wdata| == |m.wstrb| == fifo.n
      && (forall k :: CoreWired(fifo.aw, fifo.n, around, k))
      && Promised(fifo.abs, credit, quiet) && Recorded()
    }

    /** The history accounts for every cycle, and credit, quiet and refused are what it amounts to. */
    ghost predicate Recorded()
      reads this`log, this`t, this`credit, this`quiet, this`refused, fifo`abs
    {
      Logged(ptc, fifo.aw, fifo.n, around, log, t, fifo.abs, Notes(credit, quiet, refused))
    }

    /** The credit is good, and the status pipeline is as quiet as recorded. */
    ghost predicate Promised(s: FifoModel.Fifo, credit: nat, quiet: nat) {
      if ptc then MayPush(s, credit) && Quiet(s.a, quiet) else MayPop(s, credit) && Quiet(s.b, quiet)
    }

    /** The platform's pins of the FIFO. */
    function PlatformA(p: RamPins): AsyncFifo.PinsA {
      AsyncFifo.PinsA(GrayCode.Wrap(p.addr, Depth(fifo.aw)), p.wdata, p.be, p.wren, p.rden)
    }

    /** The write side of this bridge is not connected to the FIFO's read port. */
    function PlatformB(p: RamPins): AsyncFifo.PinsB {
      AsyncFifo.PinsB(GrayCode.Wrap(p.addr, Depth(fifo.aw)), ToWord(fifo.n, 0), Dpram.AllOnes(fifo.n), false, p.rden)
    }

    function KindOf(p: RamPins): Kind {
      if ptc then KindA(AsyncFifo.DecodeA(fifo.aw, fifo.n, PlatformA(p)))
      else KindB(AsyncFifo.DecodeB(fifo.aw, fifo.n, PlatformB(p)))
    }

    /** The words the platform has moved: pushed, or popped. */
    ghost function Stream(): seq<Word>
      reads fifo
    {
      if ptc then fifo.abs.pushed else fifo.popped
    }

    /** The count that the next status word reports to the platform. */
    ghost function Reported(): nat
      reads fifo
    {
      if ptc then Free(fifo.abs) else Present(fifo.abs)
    }

    /** The platform's read data pins. */
    function Rdata(): Word
      reads fifo, fifo.ram, fifo.ram.mem
      requires fifo.ram.Valid()
    {
      if ptc then fifo.RdataA() else fifo.RdataB()
    }

    /** The count that the platform takes from a status word. */
    function CountIn(status: Word): nat {
      if ptc then FifoStatus.Wcount(FromWord(status)) else FifoStatus.Rcount(FromWord(status))
    }

    /** A status word tells a count, and the empty flag of the read port agrees with it. */
    predicate Tells(status: Word, count: nat) {
      CountIn(status) == count && (!ptc ==> (FifoStatus.Empty(FromWord(status)) <==> count == 0))
    }

    /** The platform's request in an event of the FIFO. */
    ghost predicate Carries(e: Event, ram: RamPins) {
      && e.a.Rises? && e.b.Rises?
      && (if ptc then e.a.req == AsyncFifo.DecodeA(fifo.aw, fifo.n, PlatformA(ram))
          else e.b.req == AsyncFifo.DecodeB(fifo.aw, fifo.n, PlatformB(ram)))
    }

    /** Both ports of the FIFO see a rising edge. */
    method FifoEdge(ram: RamPins) returns (ghost e: Event)
      requires Valid() && |ram.wdata| == |ram.be| == fifo.n
      modifies fifo, fifo.ram, fifo.ram.mem
      ensures fifo.Valid() && Carries(e, ram) && fifo.abs == Next(old(fifo.abs), e)
      ensures CoreDrives(ptc, fifo.aw, fifo.n, around, t, e)
      ensures fifo.popped == old(fifo.popped) + if PopFires(old(fifo.abs), e.b) then [fifo.RdataB()] else []
    {
      hide AsyncFifo.DecodeA, AsyncFifo.DecodeB, AsyncFifo.Fifo.GrayAfterA, AsyncFifo.Fifo.GrayAfterB;
      hide AsyncFifo.Fifo.RdataB, AsyncFifo.Fifo.Valid, Bit, Dpram.AllOnes, Dpram.Ram.Valid, Fifo.W, GrayCode.Encode;
      hide GrayCode.Sample, GrayCode.Settles, GrayCode.Wrap, Modulus, Next, PopFires, Promised, PushFires, ToWord;
      assert CoreWired(fifo.aw, fifo.n, around, t);
      var pa := if ptc then PlatformA(ram) else around.coreA(t);
      var pb := if ptc then around.coreB(t) else PlatformB(ram);
      assert fifo.Wired(pa.addr, pa.wdata, pa.be) && fifo.Wired(pb.addr, pb.wdata, pb.be);
      fifo.GrayCodes(pa, pb);
      var sampleR := GrayCode.Sample(fifo.b.countGray, fifo.GrayAfterB(pb), around.lateR(t));
      var sampleW := GrayCode.Sample(fifo.a.countGray, fifo.GrayAfterA(pa), around.lateW(t));
      e := fifo.EdgeBoth(pa, pb, sampleR, sampleW);
    }

    lemma AskedByPins(e: Event, ram: RamPins)
      requires Carries(e, ram)
      ensures Asked(ptc, e) == KindOf(ram)
    {}

    /** An edge keeps the promise, and a promised transfer fires. */
    lemma PromiseNext(s: FifoModel.Fifo, e: Event, ram: RamPins, credit: nat, quiet: nat)
      requires Inv(s) && Carries(e, ram) && Promised(s, credit, quiet)
      ensures Promised(Next(s, e), CreditNext(KindOf(ram), credit, quiet, if ptc then Free(s) else Present(s)),
                       QuietNext(KindOf(ram), quiet))
      ensures ptc && KindOf(ram).Transfer? ==> e.a.req.Push? && e.a.req.word == ram.wdata
      ensures ptc && KindOf(ram).Transfer? && credit > 0 ==> PushFires(s, e.a)
      ensures ptc && !KindOf(ram).Transfer? ==> !PushFires(s, e.a)
      ensures !ptc && KindOf(ram).Transfer? && credit > 0 ==> PopFires(s, e.b)
      ensures !ptc && !KindOf(ram).Transfer? ==> !PopFires(s, e.b)
    {
      hide Next, Inv, MayPush, MayPop, Quiet, CreditNext, QuietNext, Free, Present;
      if ptc {
        PushCredit(s, e, credit, quiet);
      } else {
        PopCredit(s, e, credit, quiet);
      }
    }

    /** A status request brings the reported count to the read data pins. */
    lemma StatusAnswer(s: FifoModel.Fifo, e: Event, ram: RamPins)
      requires fifo.Valid() && Inv(s) && s.cap == Capacity(fifo.aw)
      requires Carries(e, ram) && fifo.abs == Next(s, e) && KindOf(ram).Status?
      ensures Tells(Rdata(), if ptc then Free(s) else Present(s))
    {
      hide Accepted, AsyncFifo.DataAddr, AsyncFifo.DecodeA, AsyncFifo.DecodeB, AsyncFifo.Fifo.RdataA;
      hide AsyncFifo.Fifo.RdataB, Bit, Capacity, Dpram.Ram.Valid, Fifo.W, FifoStatus.Empty, FifoStatus.Rcount;
      hide FifoStatus.Wcount, Free, FromWord, Inv, PlatformA, PlatformB, PopFires, Present, PushFires, Refines;
      hide StatusOf, Stay, Stored, ToWord, Valid;
      assert 3 <= fifo.aw && Capacity(fifo.aw) <= 4095 && 4 <= fifo.n;
      StatusReports(fifo.aw, fifo.n, s);
      fifo.Responses();
      if ptc {
        assert fifo.abs.a.reply == StatusReply(s.a.word);
      } else {
        assert fifo.abs.b.reply == StatusReply(s.b.word);
      }
    }

    /** Every word that was ever pushed or popped has the width of the bus. */
    lemma StreamWords()
      requires Valid()
      ensures forall k :: 0 <= k < |Stream()| ==> |Stream()[k]| == fifo.n
    {
      hide Inv, Refines, Promised;
    }

    /** An event of the FIFO goes into the history. */
    ghost method Record(s: FifoModel.Fifo, e: Event, ram: RamPins)
      requires Logged(ptc, fifo.aw, fifo.n, around, log, t, s, Notes(credit, quiet, refused))
      requires Carries(e, ram) && CoreDrives(ptc, fifo.aw, fifo.n, around, t, e) && fifo.abs == Next(s, e)
      modifies this`credit, this`quiet, this`refused, this`log
      ensures Logged(ptc, fifo.aw, fifo.n, around, log, t + 1, fifo.abs, Notes(credit, quiet, refused))
      ensures log == old(log) + [e]
      ensures credit == CreditNext(KindOf(ram), old(credit), old(quiet), Shows(ptc, s))
      ensures quiet == QuietNext(KindOf(ram), old(quiet))
      ensures refused == old(refused) + Refusal(KindOf(ram), old(quiet), Shows(ptc, s))
    {
      hide *;
      AskedByPins(e, ram);
      LoggedNext(ptc, fifo.aw, fifo.n, around, log, t, s, Notes(credit, quiet, refused), e);
      NotesParts(Notes(credit, quiet, refused), KindOf(ram), Shows(ptc, s));
      var next := NextNotes(Notes(credit, quiet, refused), KindOf(ram), Shows(ptc, s));
      log := log + [e];
      credit, quiet, refused := next.credit, next.quiet, next.refused;
    }

    /** Both clocks rise: the FIFO sees what the bridge strobes and what the core asks for. */
    method FifoCycle(ram: RamPins)
      requires Valid() && |ram.wdata| == |ram.be| == fifo.n
      modifies this`t, this`credit, this`quiet, this`refused, this`log, fifo, fifo.ram, fifo.ram.mem
      ensures Valid() && t == old(t) + 1
      ensures |log| == t && log[..old(t)] == old(log)
      ensures CoreDrives(ptc, fifo.aw, fifo.n, around, old(t), log[old(t)])
      ensures var kind := KindOf(ram);
              && credit == CreditNext(kind, old(credit), old(quiet), old(Reported()))
              && quiet == QuietNext(kind, old(quiet))
              && refused == old(refused) + Refusal(kind, old(quiet), old(Reported()))
              && (kind.Transfer? && old(credit) > 0 ==>
                    Stream() == old(Stream()) + [if ptc then ram.wdata else Rdata()])
              && (!kind.Transfer? ==> Stream() == old(Stream()))
              && (kind.Status? ==> Tells(Rdata(), old(Reported())))
      ensures old(fifo.abs.pushed) <= fifo.abs.pushed && old(fifo.popped) <= fifo.popped
    {
      hide AccessOf, AsyncFifo.DecodeA, AsyncFifo.DecodeB, AsyncFifo.Fifo.RdataA, AsyncFifo.Fifo.RdataB;
      hide AsyncFifo.Fifo.Sized, AsyncFifo.Fifo.Wired, Bit, Capacity, Carries, CountIn, CreditNext, Dpram.Ram.Valid;
      hide Fifo.W, Free, GrayCode.Encode, Inv, KindOf, NextA, NextB, PopFires, Present, Promised, PushFires;
      hide CoreDrives, Driven, NotesOf, QuietNext, Refines, Refusal, Run, Stored;
      ghost var s, kind := fifo.abs, KindOf(ram);
      assert Inv(s) && s.cap == Capacity(fifo.aw);
      ghost var e := FifoEdge(ram);
      PromiseNext(s, e, ram, credit, quiet);
      assert fifo.abs.pushed == s.pushed + Accepted(s, e);
      Record(s, e, ram);
      t := t + 1;
      if kind.Status? {
        StatusAnswer(s, e, ram);
      }
    }

    /** One clock cycle: the pins settle, then both clocks rise. */
    method Cycle()
      requires Valid()
      modifies this`t, this`trace, this`credit, this`quiet, this`refused, this`log, bridge, fifo, fifo.ram, fifo.ram.mem
      ensures Valid() && t == old(t) + 1
      ensures |log| == t && log[..old(t)] == old(log)
      ensures CoreDrives(ptc, fifo.aw, fifo.n, around, old(t), log[old(t)])
      ensures bridge.w == WriteNext(old(bridge.w), m) && bridge.r == ReadNext(bridge.range, old(bridge.r), m)
      ensures trace == old(trace) + [AccessOf(old(bridge.RamSide(m)))]
      ensures var kind := KindOf(old(bridge.RamSide(m)));
              && credit == CreditNext(kind, old(credit), old(quiet), old(Reported()))
              && quiet == QuietNext(kind, old(quiet))
              && refused == old(refused) + Refusal(kind, old(quiet), old(Reported()))
              && (kind.Transfer? && old(credit) > 0 ==>
                    Stream() == old(Stream()) + [if ptc then m.wdata else Rdata()])
              && (!kind.Transfer? ==> Stream() == old(Stream()))
              && (kind.Status? ==> Tells(Rdata(), old(Reported())))
      ensures old(fifo.abs.pushed) <= fifo.abs.pushed && old(fifo.popped) <= fifo.popped
    {
      hide AccessOf, AsyncFifo.Fifo.Valid, CoreDrives, CountIn, CreditNext, Dpram.Ram.Valid, KindOf, Promised;
      hide QuietNext, Rdata, ReadNext, Recorded, Refusal, Reported, Stream, Tells, WriteNext;
      var ram := bridge.RamSide(m);
      assert ram.wdata == m.wdata && ram.be == m.wstrb;
      FifoCycle(ram);
      bridge.Edge(m);
      trace := trace + [AccessOf(ram)];
    }

    /** A cycle in which the bridge strobes nothing. */
    method SilentCycle()
      requires Valid() && AccessOf(bridge.RamSide(m)).NoAccess?
      modifies this`t, this`trace, this`credit, this`quiet, this`refused, this`log, bridge, fifo, fifo.ram, fifo.ram.mem
      ensures Valid() && t == old(t) + 1
      ensures bridge.w == WriteNext(old(bridge.w), m) && bridge.r == ReadNext(bridge.range, old(bridge.r), m)
      ensures trace == old(trace) + [NoAccess] && credit == old(credit) && quiet == old(quiet) + 1
      ensures Stream() == old(Stream()) && refused == old(refused)
      ensures old(fifo.abs.pushed) <= fifo.abs.pushed && old(fifo.popped) <= fifo.popped
    {
      hide AsyncFifo.DataAddr, AsyncFifo.Fifo.Valid, Bridge.RamSide, CountIn, Depth, Dpram.AllOnes, Dpram.Ram.Valid;
      hide Recorded;
      hide GrayCode.Wrap, Rdata, ReadNext, Reported, Stream, ToWord, Valid, WriteNext;
      assert KindOf(bridge.RamSide(m)).Other?;
      Cycle();
    }

    /** AW phase: raise AWVALID until AWREADY, then one more cycle. */
    method AddressPhase(addr: nat)
      requires Valid() && Resting()
      modifies this, bridge, fifo, fifo.ram, fifo.ram.mem
      ensures Valid() && t == old(t) + 2
      ensures bridge.w.state.WrBurst? && bridge.w.awaddr == addr && !bridge.w.awready && !bridge.w.wready
      ensures bridge.r.state.RdIdle? && !bridge.r.arready
      ensures !m.awvalid && !m.wvalid && !m.bready && !m.arvalid && !m.rready
      ensures trace == old(trace) + [NoAccess, NoAccess] && credit == old(credit) && quiet == old(quiet) + 2
      ensures Stream() == old(Stream()) && refused == old(refused)
    {
      hide AsyncFifo.Fifo.Valid, AsyncFifo.Fifo.Wired, BeatBytes, Dpram.Ram.Valid, Promised;
      hide Recorded;
      m := m.(awaddr := addr, awvalid := true);
      while !bridge.w.awready
        invariant Valid() && m == old(m).(awaddr := addr, awvalid := true)
        invariant bridge.r.state.RdIdle? && !bridge.r.arready && !bridge.w.wready
        invariant Stream() == old(Stream()) && credit == old(credit) && refused == old(refused)
        invariant if bridge.w.awready then
                    && bridge.w.state.WrBurst? && bridge.w.awaddr == addr
                    && t == old(t) + 1 && trace == old(trace) + [NoAccess] && quiet == old(quiet) + 1
                  else bridge.w.state.WrIdle? && t == old(t) && trace == old(trace) && quiet == old(quiet)
        decreases !bridge.w.awready
      {
        SilentCycle();
      }
      SilentCycle();
      m := m.(awvalid := false);
    }

    /** W phase: raise WVALID until WREADY, then one more cycle; the first of them strobes. */
    method DataPhase(word: Word)
      requires Valid() && |word| == fifo.n
      requires bridge.w.state.WrBurst? && !bridge.w.awready && !bridge.w.wready
      requires bridge.r.state.RdIdle? && !bridge.r.arready
      requires !m.awvalid && !m.wvalid && !m.bready && !m.arvalid && !m.rready
      modifies this, bridge, fifo, fifo.ram, fifo.ram.mem
      ensures Valid() && t == old(t) + 2
      ensures bridge.w.state.WrResp? && !bridge.w.awready && !bridge.w.wready && bridge.w.bvalid
      ensures bridge.r.state.RdIdle? && !bridge.r.arready
      ensures !m.awvalid && !m.wvalid && !m.bready && !m.arvalid && !m.rready
      ensures trace == old(trace) + [WriteTo(old(bridge.w.awaddr), word, Dpram.AllOnes(fifo.n)), NoAccess]
      ensures var kind := WriteKind(old(bridge.w.awaddr));
              && credit == CreditNext(kind, old(credit), old(quiet), old(Reported()))
              && quiet == QuietNext(kind, old(quiet)) + 1 && refused == old(refused)
              && (kind.Transfer? && old(credit) > 0 ==> Stream() == old(Stream()) + [word])
              && (!kind.Transfer? ==> Stream() == old(Stream()))
    {
      hide AsyncFifo.DataAddr, AsyncFifo.Fifo.Valid, AsyncFifo.Fifo.Wired, BeatBytes, CountIn, CreditNext, Depth;
      hide Recorded;
      hide Dpram.AllOnes, Dpram.Ram.Valid, Free, GrayCode.Wrap, Present, Promised, QuietNext, Rdata, ToWord;
      m := m.(wdata := word, wlast := true, wvalid := true, wstrb := Dpram.AllOnes(fifo.n));
      ghost var addr, kind := bridge.w.awaddr, WriteKind(bridge.w.awaddr);
      ghost var m1, r0 := m, Reported();
      assert KindOf(RamPins(addr, word, Dpram.AllOnes(fifo.n), true, false)) == kind;
      assert r0 == old(Reported());
      while !bridge.w.wready
        invariant Valid() && m == m1
        invariant refused == old(refused)
        invariant bridge.r.state.RdIdle? && !bridge.r.arready && !bridge.w.awready && bridge.w.awaddr == addr
        invariant if bridge.w.wready then
                    && bridge.w.state.WrResp? && t == old(t) + 1
                    && trace == old(trace) + [WriteTo(addr, word, Dpram.AllOnes(fifo.n))]
                    && credit == CreditNext(kind, old(credit), old(quiet), r0) && quiet == QuietNext(kind, old(quiet))
                    && (kind.Transfer? && old(credit) > 0 ==> Stream() == old(Stream()) + [word])
                    && (!kind.Transfer? ==> Stream() == old(Stream()))
                  else
                    && bridge.w.state.WrBurst? && t == old(t) && trace == old(trace)
                    && Reported() == r0 && credit == old(credit) && quiet == old(quiet) && Stream() == old(Stream())
        decreases !bridge.w.wready
      {
        Cycle();
      }
      SilentCycle();
      m := m.(wvalid := false);
    }

    /** What the FIFO takes a full-word write for. */
    function WriteKind(addr: nat): Kind {
      if ptc && GrayCode.Wrap(addr, Depth(fifo.aw)) == AsyncFifo.DataAddr(fifo.aw, fifo.n) then Transfer else Other
    }

    /** B phase: raise BREADY until BVALID, then one more cycle. */
    method ResponsePhase()
      requires Valid()
      requires bridge.w.state.WrResp? && !bridge.w.awready && !bridge.w.wready
      requires bridge.r.state.RdIdle? && !bridge.r.arready
      requires !m.awvalid && !m.wvalid && !m.bready && !m.arvalid && !m.rready
      modifies this, bridge, fifo, fifo.ram, fifo.ram.mem
      ensures Valid() && Resting()
      ensures old(bridge.w.bvalid) ==> t == old(t) + 1 && trace == old(trace) + [NoAccess] && quiet == old(quiet) + 1
      ensures credit == old(credit) && refused == old(refused) && Stream() == old(Stream())
    {
      hide AsyncFifo.Fifo.Valid, AsyncFifo.Fifo.Wired, BeatBytes, Dpram.Ram.Valid, Promised;
      hide Recorded;
      m := m.(bready := true);
      while !bridge.w.bvalid
        invariant Valid() && m == old(m).(bready := true)
        invariant bridge.r.state.RdIdle? && !bridge.r.arready && !bridge.w.awready && !bridge.w.wready
        invariant Stream() == old(Stream()) && credit == old(credit) && refused == old(refused)
        invariant !bridge.w.bvalid ==> bridge.w.state.WrResp?
        invariant bridge.w.bvalid && !old(bridge.w.bvalid) ==> bridge.w.state.WrIdle?
        invariant old(bridge.w.bvalid) ==>
                    && bridge.w.state.WrResp? && bridge.w.bvalid
                    && t == old(t) && trace == old(trace) && quiet == old(quiet)
        decreases !bridge.w.bvalid
      {
        SilentCycle();
      }
      SilentCycle();
      m := m.(bready := false);
    }

    /**
     One beat of PtcAxi4Write: five cycles, of which the third strobes the FIFO once. A push that
     the last status word promised room for is accepted.
     */
    method WriteBeat(addr: nat, word: Word)
      requires Valid() && Resting() && |word| == fifo.n
      modifies this, bridge, fifo, fifo.ram, fifo.ram.mem
      ensures Valid() && Resting() && t == old(t) + 5 && refused == old(refused)
      ensures trace == old(trace) + WriteTrace(addr, word)
      ensures var kind := WriteKind(addr);
              && (kind.Transfer? ==> quiet == 2 && credit == if old(credit) > 0 then old(credit) - 1 else 0)
              && (kind.Transfer? && old(credit) > 0 ==> Stream() == old(Stream()) + [word])
              && (kind.Other? ==> Stream() == old(Stream()) && credit == old(credit) && quiet == old(quiet) + 5)
    {
      hide AsyncFifo.Fifo.Valid, Dpram.AllOnes, Dpram.Ram.Valid, Reported, Resting, Stream, Valid, WriteKind;
      AddressPhase(addr);
      DataPhase(word);
      ResponsePhase();
    }

    /** AR phase: raise ARVALID until ARREADY, then one more cycle. */
    method ReadAddressPhase(addr: nat)
      requires Valid() && Resting()
      modifies this, bridge, fifo, fifo.ram, fifo.ram.mem
      ensures Valid() && t == old(t) + 2
      ensures bridge.r.state.RdBurst? && bridge.r.araddr == addr && !bridge.r.arready
      ensures !bridge.r.rvalid && !bridge.r.rlast && bridge.r.arlen == 0 && bridge.r.arburst == 0
      ensures bridge.w.state.WrIdle? && !bridge.w.awready && !bridge.w.wready
      ensures !m.awvalid && !m.wvalid && !m.bready && !m.arvalid && !m.rready
      ensures trace == old(trace) + [NoAccess, NoAccess] && credit == old(credit) && quiet == old(quiet) + 2
      ensures Stream() == old(Stream()) && refused == old(refused)
    {
      hide AsyncFifo.Fifo.Valid, AsyncFifo.Fifo.Wired, BeatBytes, Dpram.Ram.Valid, Promised;
      hide Recorded;
      m := m.(araddr := addr, arburst := 0, arsize := if fifo.n == 8 then 3 else 2, arlen := 0, arvalid := true);
      ghost var m1 := m;
      while !bridge.r.arready
        invariant Valid() && m == m1
        invariant bridge.w.state.WrIdle? && !bridge.w.awready && !bridge.w.wready
        invariant Stream() == old(Stream()) && credit == old(credit) && refused == old(refused)
        invariant if bridge.r.arready then
                    && bridge.r.state.RdBurst? && bridge.r.araddr == addr
                    && bridge.r.arlen == 0 && bridge.r.arburst == 0
                    && !bridge.r.rvalid && !bridge.r.rlast
                    && t == old(t) + 1 && trace == old(trace) + [NoAccess] && quiet == old(quiet) + 1
                  else bridge.r.state.RdIdle? && t == old(t) && trace == old(trace) && quiet == old(quiet)
        decreases !bridge.r.arready
      {
        SilentCycle();
      }
      SilentCycle();
      m := m.(arvalid := false);
    }

    /** What the FIFO takes a read for. */
    function ReadKind(addr: nat): Kind {
      var local := GrayCode.Wrap(addr, Depth(fifo.aw));
      if !ptc && local == AsyncFifo.DataAddr(fifo.aw, fifo.n) then Transfer
      else if local == 0 then Status
      else Other
    }

    /**
     R phase: raise RREADY until RVALID, take the data, then one more cycle. The first cycle
     strobes; the last one does not although RREADY is still up.
     */
    method ReadDataPhase() returns (data: Word)
      requires Valid()
      requires bridge.r.state.RdBurst? && !bridge.r.arready
      requires !bridge.r.rvalid && !bridge.r.rlast && bridge.r.arlen == 0 && bridge.r.arburst == 0
      requires bridge.w.state.WrIdle? && !bridge.w.awready && !bridge.w.wready
      requires !m.awvalid && !m.wvalid && !m.bready && !m.arvalid && !m.rready
      modifies this, bridge, fifo, fifo.ram, fifo.ram.mem
      ensures Valid() && Resting() && t == old(t) + 2
      ensures trace == old(trace) + [ReadFrom(old(bridge.r.araddr)), NoAccess]
      ensures var kind := ReadKind(old(bridge.r.araddr));
              && credit == CreditNext(kind, old(credit), old(quiet), old(Reported()))
              && quiet == QuietNext(kind, old(quiet)) + 1
              && refused == old(refused) + Refusal(kind, old(quiet), old(Reported()))
              && (kind.Transfer? && old(credit) > 0 ==> Stream() == old(Stream()) + [data])
              && (!kind.Transfer? ==> Stream() == old(Stream()))
              && (kind.Status? ==> Tells(data, old(Reported())))
    {
      hide AsyncFifo.DataAddr, AsyncFifo.Fifo.Sized, AsyncFifo.Fifo.Wired, BeatBytes, Capacity, CountIn, CreditNext;
      hide Recorded;
      hide Depth, Dpram.AllOnes, Dpram.Ram.Valid, Fifo.W, Free, GrayCode.Wrap, Inv, Present, Promised, QuietNext;
      hide Rdata, Refines, Stored, ToWord;
      m := m.(rready := true);
      ghost var addr, m1, r0 := bridge.r.araddr, m, Reported();
      assert r0 == old(Reported());
      ghost var kind := ReadKind(addr);
      assert KindOf(RamPins(addr, m.wdata, m.wstrb, false, true)) == kind && (kind.Transfer? ==> !ptc);
      while !bridge.r.rvalid
        invariant Valid() && m == m1 && fifo.ram.Valid()
        invariant bridge.r.state.RdBurst? && !bridge.r.arready && bridge.r.araddr == addr && bridge.r.arburst == 0
        invariant bridge.w.state.WrIdle? && !bridge.w.awready && !bridge.w.wready
        invariant if bridge.r.rvalid then
                    && bridge.r.rlast && t == old(t) + 1 && trace == old(trace) + [ReadFrom(addr)]
                    && credit == CreditNext(kind, old(credit), old(quiet), r0) && quiet == QuietNext(kind, old(quiet))
                    && refused == old(refused) + Refusal(kind, old(quiet), r0)
                    && (kind.Transfer? && old(credit) > 0 ==> Stream() == old(Stream()) + [Rdata()])
                    && (!kind.Transfer? ==> Stream() == old(Stream()))
                    && (kind.Status? ==> Tells(Rdata(), r0))
                  else
                    && !bridge.r.rlast && bridge.r.arlen == 0 && t == old(t) && trace == old(trace)
                    && Reported() == r0 && refused == old(refused) && credit == old(credit)
                    && quiet == old(quiet) && Stream() == old(Stream())
        decreases !bridge.r.rvalid
      {
        Cycle();
      }
      data := Rdata();
      SilentCycle();
      m := m.(rready := false);
    }

    /**
     One beat of PtcAxi4Read or CtpAxi4Read: four cycles, of which the third strobes the FIFO once.
     Between a pop and the sampling of a status word lie three cycles, exactly as many as the status
     pipeline is deep: one beat's last and the next beat's first two.
     */
    method ReadBeat(addr: nat) returns (data: Word)
      requires Valid() && Resting()
      modifies this, bridge, fifo, fifo.ram, fifo.ram.mem
      ensures Valid() && Resting() && t == old(t) + 4
      ensures trace == old(trace) + ReadTrace(addr)
      ensures var kind := ReadKind(addr);
              && (kind.Transfer? ==> quiet == 1 && credit == if old(credit) > 0 then old(credit) - 1 else 0)
              && (kind.Transfer? && old(credit) > 0 ==> Stream() == old(Stream()) + [data])
              && (kind.Status? && old(quiet) >= 1 ==>
                    Tells(data, credit) && refused == old(refused) + if credit == 0 then 1 else 0)
              && (!kind.Status? ==> refused == old(refused))
              && (!kind.Transfer? ==> Stream() == old(Stream()) && quiet == old(quiet) + 4)
              && (kind.Other? ==> credit == old(credit))
    {
      hide AsyncFifo.Fifo.Valid, CountIn, Dpram.Ram.Valid, ReadKind, Reported, Resting, Stream, Valid;
      ReadAddressPhase(addr);
      data := ReadDataPhase();
    }

    /**
     PtcAxi4Write and CtpAxi4Write: one single-beat transaction for each word. Both state machines
     are back in idle at the end.
     */
    method Axi4Write(addr: nat, data: seq<Word>, mode: AxiBurst) returns (code: Code)
      requires Valid() && Resting() && forall k :: 0 <= k < |data| ==> |data[k]| == fifo.n
      modifies this, bridge, fifo, fifo.ram, fifo.ram.mem
      ensures Valid() && Resting() && refused == old(refused)
      ensures t == old(t) + if code == Success then 5 * |data| else 0
      ensures code == if data == [] then Failure else if addr % fifo.n != 0 then AddrNotAligned else Success
      ensures trace == old(trace) + if code == Success then WriteTraces(addr, fifo.n, mode, data, |data|) else []
      ensures code != Success ==> Stream() == old(Stream()) && credit == old(credit) && quiet == old(quiet)
      ensures code == Success && mode.Fixed? && WriteKind(addr).Transfer? ==> quiet == 2
      ensures code == Success && mode.Fixed? && WriteKind(addr).Transfer? && old(credit) >= |data| ==>
                Stream() == old(Stream()) + data && credit == old(credit) - |data|
    {
      hide Valid, AsyncFifo.Fifo.Valid, AsyncFifo.Fifo.Wired, Dpram.Ram.Valid, IsAligned, NextAddr, Promised, Resting;
      hide WriteKind, WriteTrace, WriteTraces;
      WordSize();
      AlignedIs(addr, fifo.n);
      if |data| == 0 {
        return Failure;
      }
      if !IsAligned(addr, fifo.n) {
        return AddrNotAligned;
      }
      var localAddr := addr;
      ghost var pushes := mode.Fixed? && WriteKind(addr).Transfer? && credit >= |data|;
      ghost var moved := Stream();
      NoTraces(addr, fifo.n, mode, data);
      for i := 0 to |data|
        invariant refused == old(refused) && t == old(t) + 5 * i
        invariant Valid() && Resting() && localAddr == AddrAt(addr, fifo.n, mode, i)
        invariant trace == old(trace) + WriteTraces(addr, fifo.n, mode, data, i)
        invariant mode.Fixed? && WriteKind(addr).Transfer? ==> localAddr == addr && (i > 0 ==> quiet == 2)
        invariant moved == old(Stream()) + data[..i]
        invariant pushes ==> Stream() == moved && credit == old(credit) - i
      {
        WriteBeat(localAddr, data[i]);
        OneTrace(addr, fifo.n, mode, data, i, old(trace));
        MoveOne(old(Stream()), data, i);
        moved := moved + [data[i]];
        if mode != Fixed {
          localAddr := NextAddr(localAddr, fifo.n);
        }
      }
      assert data[..|data|] == data;
      code := Success;
    }

    lemma WordSize()
      requires Valid()
      ensures fifo.n >= 4
    {}

    /** PtcAxi4Read and CtpAxi4Read: one single-beat transaction for each word. */
    method Axi4Read(addr: nat, words: nat, mode: AxiBurst) returns (code: Code, data: seq<Word>)
      requires Valid() && Resting()
      modifies this, bridge, fifo, fifo.ram, fifo.ram.mem
      ensures Valid() && Resting()
      ensures t == old(t) + if code == Success then 4 * words else 0
      ensures code == if words == 0 then Failure else if addr % fifo.n != 0 then AddrNotAligned else Success
      ensures |data| == (if code == Success then words else 0)
      ensures trace == if code == Success then old(trace) + ReadTraces(addr, fifo.n, mode, words) else old(trace)
      ensures code != Success ==> Stream() == old(Stream()) && credit == old(credit) && quiet == old(quiet)
      ensures code == Success && mode.Fixed? && ReadKind(addr).Transfer? ==> quiet == 1
      ensures code == Success && mode.Fixed? && ReadKind(addr).Transfer? && old(credit) >= words ==>
                Stream() == old(Stream()) + data && credit == old(credit) - words
      ensures code == Success && mode.Fixed? && ReadKind(addr).Status? ==> Stream() == old(Stream()) && quiet >= 1
      ensures code == Success && mode.Fixed? && ReadKind(addr).Status? && words == 1 && old(quiet) >= 1 ==>
                Tells(data[0], credit) && refused == old(refused) + if credit == 0 then 1 else 0
      ensures code != Success || (mode.Fixed? && !ReadKind(addr).Status?) ==> refused == old(refused)
    {
      hide IsAligned, NextAddr, ReadKind, ReadTrace, ReadTraces, Resting, Stream, Tells, Valid;
      WordSize();
      AlignedIs(addr, fifo.n);
      data := [];
      NoReadTraces(addr, fifo.n, mode);
      if words == 0 {
        return Failure, [];
      }
      if !IsAligned(addr, fifo.n) {
        return AddrNotAligned, [];
      }
      var localAddr := addr;
      for i := 0 to words
        invariant t == old(t) + 4 * i
        invariant Valid() && Resting() && localAddr == AddrAt(addr, fifo.n, mode, i) && |data| == i
        invariant trace == old(trace) + ReadTraces(addr, fifo.n, mode, i)
        invariant mode.Fixed? ==> localAddr == addr
        invariant mode.Fixed? && ReadKind(addr).Transfer? ==> i > 0 ==> quiet == 1
        invariant mode.Fixed? && ReadKind(addr).Transfer? && old(credit) >= words ==>
                    Stream() == old(Stream()) + data && credit == old(credit) - i
        invariant mode.Fixed? && ReadKind(addr).Status? ==>
                    && Stream() == old(Stream()) && quiet >= i
                    && (i == 0 ==> quiet == old(quiet) && refused == old(refused))
                    && (i == 1 && old(quiet) >= 1 ==>
                          Tells(data[0], credit) && refused == old(refused) + if credit == 0 then 1 else 0)
        invariant mode.Fixed? && !ReadKind(addr).Status? ==> refused == old(refused)
      {
        var word := ReadBeat(localAddr);
        OneReadTrace(addr, fifo.n, mode, i, old(trace));
        data := data + [word];
        if mode != Fixed {
          localAddr := NextAddr(localAddr, fifo.n);
        }
      }
      code := Success;
    }
  }
}
