/**
 The core's side of a FIFO, cycle by cycle: a bus master that holds a request for the data register
 until it is granted. A load returns the next word of the stream and a store adds one, whatever
 happens on the other port; and a word or a free slot that is there is granted within four edges.
 */
module CorePort {

  import opened Words
  import opened FifoModel
  import opened FifoRefinement
  import opened Credit
  import opened History
  import AsyncFifo
  import FifoStatus
  import Dpram
  import GrayCode

  /** After k edges of port B, the words pushed before are on their way through the synchronizer. */
  predicate WordsSeen(b: Domain, w: nat, k: nat) {
    (k >= 1 ==> b.meta >= w) && (k >= 2 ==> b.sync >= w) && (k >= 3 ==> b.snap.w >= w)
  }

  /** After k edges of port A, so are the slots freed before. */
  predicate SlotsSeen(a: Domain, r: nat, k: nat) {
    (k >= 1 ==> a.meta >= r) && (k >= 2 ==> a.sync >= r) && (k >= 3 ==> a.snap.r >= r)
  }

  /** Whatever else is pushed meanwhile: three edges on, a word that was there is seen. */
  lemma WordsSeenNext(s: Fifo, e: Event, w: nat, k: nat)
    requires Inv(s) && e.b.Rises? && w <= s.W() && WordsSeen(s.b, w, k)
    ensures WordsSeen(Next(s, e).b, w, k + 1) && w <= Next(s, e).W()
  {
    NextCounts(s, e);
  }

  lemma SlotsSeenNext(s: Fifo, e: Event, r: nat, k: nat)
    requires Inv(s) && e.a.Rises? && r <= s.r && SlotsSeen(s.a, r, k)
    ensures SlotsSeen(Next(s, e).a, r, k + 1) && r <= Next(s, e).r
  {
    NextCounts(s, e);
  }

  /** Both clocks rise; the synchronizers settle as `around` says for cycle k. */
  method Edge(fifo: AsyncFifo.Fifo, pa: AsyncFifo.PinsA, pb: AsyncFifo.PinsB, around: Surroundings, k: nat)
    returns (ghost e: Event)
    requires fifo.Valid() && fifo.Wired(pa.addr, pa.wdata, pa.be) && fifo.Wired(pb.addr, pb.wdata, pb.be)
    modifies fifo, fifo.ram, fifo.ram.mem
    ensures fifo.Valid() && fifo.abs == Next(old(fifo.abs), e)
    ensures e.a == Rises(AsyncFifo.DecodeA(fifo.aw, fifo.n, pa)) && e.b == Rises(AsyncFifo.DecodeB(fifo.aw, fifo.n, pb))
    ensures fifo.popped == old(fifo.popped) + if PopFires(old(fifo.abs), e.b) then [fifo.RdataB()] else []
  {
    hide AsyncFifo.DecodeA, AsyncFifo.DecodeB, AsyncFifo.Fifo.GrayAfterA, AsyncFifo.Fifo.GrayAfterB;
    hide AsyncFifo.Fifo.RdataB, AsyncFifo.Fifo.Valid, Bit, Dpram.Ram.Valid, Fifo.W, GrayCode.Encode;
    hide GrayCode.Sample, GrayCode.Settles, Modulus, Next, PopFires, PushFires;
    fifo.GrayCodes(pa, pb);
    var sampleR := GrayCode.Sample(fifo.b.countGray, fifo.GrayAfterB(pb), around.lateR(k));
    var sampleW := GrayCode.Sample(fifo.a.countGray, fifo.GrayAfterA(pa), around.lateW(k));
    e := fifo.EdgeBoth(pa, pb, sampleR, sampleW);
  }

  /** An invariant of the FIFO's state that its registers keep. */
  lemma Sound(fifo: AsyncFifo.Fifo)
    requires fifo.Valid()
    ensures Inv(fifo.abs) && fifo.ram.Valid() && fifo.abs.cap == Capacity(fifo.aw) && fifo.Sized()
  {
    hide Inv, Refines, Stored;
  }

  lemma PopFound(s: Fifo, w: nat, k: nat)
    requires Inv(s) && s.r < w && WordsSeen(s.b, w, k) && k >= 3
    ensures !s.b.guard
  {}

  lemma PushFound(s: Fifo, r: nat, k: nat)
    requires Inv(s) && s.W() < r + s.cap && SlotsSeen(s.a, r, k) && k >= 3
    ensures !s.a.guard
  {}

  /** What an edge does to a port that asks for data: all or nothing. */
  lemma PopOrNot(s: Fifo, e: Event)
    requires e.b == Rises(Pop)
    ensures PopFires(s, e.b) <==> !s.b.guard
    ensures Next(s, e).r == s.r + (if s.b.guard then 0 else 1) && s.pushed <= Next(s, e).pushed
  {
    hide NextA, NextB;
  }

  lemma PushOrNot(s: Fifo, e: Event, word: Word)
    requires e.a == Rises(Push(word))
    ensures Next(s, e).pushed == s.pushed + (if s.a.guard then [] else [word]) && s.r <= Next(s, e).r
  {
    hide NextA, NextB;
  }

  /**
   A load of the data register: the request is held until granted. It returns the next word of the
   stream, once; and if a word is there to begin with, within four edges, whatever the other port
   does and however the synchronizers settle.
   */
  method Load(fifo: AsyncFifo.Fifo, pb: AsyncFifo.PinsB, around: Surroundings, patience: nat)
    returns (granted: bool, word: Word, cycles: nat)
    requires fifo.Valid() && fifo.Wired(pb.addr, pb.wdata, pb.be) && AsyncFifo.DecodeB(fifo.aw, fifo.n, pb).Pop?
    requires forall k :: CoreWired(fifo.aw, fifo.n, around, k)
    modifies fifo, fifo.ram, fifo.ram.mem
    ensures fifo.Valid() && old(fifo.abs.pushed) <= fifo.abs.pushed
    ensures fifo.popped == old(fifo.popped) + (if granted then [word] else [])
    ensures fifo.abs.r == old(fifo.abs.r) + (if granted then 1 else 0)
    ensures cycles <= patience && (granted || cycles == patience)
    ensures old(fifo.abs.r < fifo.abs.W()) && patience >= 4 ==> granted && cycles <= 4
  {
    hide AsyncFifo.DecodeA, AsyncFifo.DecodeB, AsyncFifo.Fifo.RdataB, AsyncFifo.Fifo.Valid, Inv, Next;
    hide WordsSeen;
    granted, word, cycles := false, [], 0;
    ghost var w := fifo.abs.W();
    NothingSeen(fifo.abs, w);
    while cycles < patience
      invariant fifo.Valid() && cycles <= patience && old(fifo.abs.pushed) <= fifo.abs.pushed
      invariant fifo.popped == old(fifo.popped) && fifo.abs.r == old(fifo.abs.r)
      invariant w <= fifo.abs.W() && WordsSeen(fifo.abs.b, w, cycles)
      invariant old(fifo.abs.r) < w ==> cycles <= 3
    {
      assert CoreWired(fifo.aw, fifo.n, around, cycles);
      var pa := around.coreA(cycles);
      ghost var s := fifo.abs;
      Sound(fifo);
      fifo.Grants(pa, pb);
      granted := fifo.GrantB(pb);
      ghost var e := Edge(fifo, pa, pb, around, cycles);
      PopOrNot(s, e);
      if s.r < w && cycles >= 3 { PopFound(s, w, cycles); }
      WordsSeenNext(s, e, w, cycles);
      cycles := cycles + 1;
      if granted {
        Sound(fifo);
        word := fifo.RdataB();
        return;
      }
    }
  }

  lemma NothingSeen(s: Fifo, k: nat)
    ensures WordsSeen(s.b, k, 0) && SlotsSeen(s.a, k, 0)
  {}

  /**
   A store to the data register: the request is held until granted. The word is added to the stream,
   once; and if a slot is free to begin with, within four edges.
   */
  method Store(fifo: AsyncFifo.Fifo, pa: AsyncFifo.PinsA, around: Surroundings, patience: nat)
    returns (granted: bool, cycles: nat)
    requires fifo.Valid() && fifo.Wired(pa.addr, pa.wdata, pa.be)
    requires AsyncFifo.DecodeA(fifo.aw, fifo.n, pa) == Push(pa.wdata)
    requires forall k :: CoreWired(fifo.aw, fifo.n, around, k)
    modifies fifo, fifo.ram, fifo.ram.mem
    ensures fifo.Valid() && old(fifo.popped) <= fifo.popped
    ensures fifo.abs.pushed == old(fifo.abs.pushed) + (if granted then [pa.wdata] else [])
    ensures cycles <= patience && (granted || cycles == patience)
    ensures old(fifo.abs.W() < fifo.abs.r + fifo.abs.cap) && patience >= 4 ==> granted && cycles <= 4
  {
    hide AsyncFifo.DecodeA, AsyncFifo.DecodeB, AsyncFifo.Fifo.RdataB, AsyncFifo.Fifo.Valid, Inv, Next;
    hide PopFires, SlotsSeen;
    granted, cycles := false, 0;
    ghost var r, cap := fifo.abs.r, fifo.abs.cap;
    NothingSeen(fifo.abs, r);
    while cycles < patience
      invariant fifo.Valid() && cycles <= patience && old(fifo.popped) <= fifo.popped && fifo.abs.cap == cap
      invariant fifo.abs.pushed == old(fifo.abs.pushed)
      invariant r <= fifo.abs.r && SlotsSeen(fifo.abs.a, r, cycles)
      invariant old(fifo.abs.W()) < r + cap ==> cycles <= 3
    {
      assert CoreWired(fifo.aw, fifo.n, around, cycles);
      var pb := around.coreB(cycles);
      ghost var s := fifo.abs;
      Sound(fifo);
      fifo.Grants(pa, pb);
      granted := fifo.GrantA(pa);
      ghost var e := Edge(fifo, pa, pb, around, cycles);
      PushOrNot(s, e, pa.wdata);
      if s.W() < r + cap && cycles >= 3 { PushFound(s, r, cycles); }
      SlotsSeenNext(s, e, r, cycles);
      SameCapacity(s, e);
      cycles := cycles + 1;
      if granted {
        return;
      }
    }
  }

  lemma SameCapacity(s: Fifo, e: Event)
    ensures Next(s, e).cap == s.cap
  {}

  /** The status word that a FIFO of capacity cap shows at the level `level`. */
  predicate Reports(word: Word, cap: nat, level: nat) {
    var status := FromWord(word);
    && FifoStatus.Rcount(status) == level && FifoStatus.Wcount(status) == cap - level
    && (FifoStatus.Empty(status) <==> level == 0) && (FifoStatus.Full(status) <==> level == cap)
  }

  lemma StatusReported(aw: nat, n: nat, c: Counts)
    requires 0 < aw && Capacity(aw) <= 4095 && 4 <= n && Ordered(c, Capacity(aw))
    ensures Reports(ToWord(n, StatusOf(aw, c)), Capacity(aw), c.w - c.r)
  {
    hide FifoStatus.StatusWord, FifoStatus.Empty, FifoStatus.Full, FifoStatus.Rcount, FifoStatus.Wcount;
    hide ToWord, FromWord;
    Sizes(aw);
    FifoStatus.StatusDecodes(Capacity(aw), c.w - c.r);
    FourBytes(n);
    FromToWord(n, StatusOf(aw, c));
  }

  /** What a status access does at an edge: it moves nothing and is answered with the word of the pipeline. */
  lemma StatusEdgeB(fifo: AsyncFifo.Fifo, s: Fifo, e: Event)
    requires fifo.Valid() && Inv(s) && s.cap == Capacity(fifo.aw) && fifo.abs == Next(s, e) && e.b == Rises(StatusB)
    ensures fifo.abs.r == s.r && s.pushed <= fifo.abs.pushed && !PopFires(s, e.b)
    ensures Reports(fifo.RdataB(), s.cap, s.b.word.w - s.b.word.r)
    ensures s.b.word.w - s.b.word.r <= s.W() - s.r + LastThree(s.b)
  {
    hide Refines, Stored, StatusOf, ToWord, Reports, NextA;
    fifo.Responses();
    StatusReported(fifo.aw, fifo.n, s.b.word);
  }

  lemma StatusEdgeA(fifo: AsyncFifo.Fifo, s: Fifo, e: Event)
    requires fifo.Valid() && Inv(s) && s.cap == Capacity(fifo.aw) && fifo.abs == Next(s, e) && e.a == Rises(StatusA)
    ensures fifo.abs.pushed == s.pushed && s.r <= fifo.abs.r
    ensures Reports(fifo.RdataA(), s.cap, s.a.word.w - s.a.word.r)
    ensures s.W() - s.r <= s.a.word.w - s.a.word.r + LastThree(s.a)
  {
    hide Refines, Stored, StatusOf, ToWord, Reports, NextB;
    fifo.Responses();
    StatusReported(fifo.aw, fifo.n, s.a.word);
  }

  /**
   A load of the status register on port B never waits, however empty the FIFO is. It moves nothing, and the word
   it returns decodes to the level that the status pipeline held, which exceeds the true one by no
   more than the pops of the last three edges.
   */
  method LoadStatusB(fifo: AsyncFifo.Fifo, pb: AsyncFifo.PinsB, around: Surroundings, k: nat)
    returns (granted: bool, word: Word)
    requires fifo.Valid() && fifo.Wired(pb.addr, pb.wdata, pb.be) && pb.rden && !pb.wren && pb.addr == 0
    requires CoreWired(fifo.aw, fifo.n, around, k)
    modifies fifo, fifo.ram, fifo.ram.mem
    ensures granted && fifo.Valid() && fifo.popped == old(fifo.popped)
    ensures fifo.abs.r == old(fifo.abs.r) && old(fifo.abs.pushed) <= fifo.abs.pushed
    ensures var level := old(fifo.abs.b.word.w - fifo.abs.b.word.r);
            Reports(word, Capacity(fifo.aw), level) && level <= old(fifo.abs.W() - fifo.abs.r + LastThree(fifo.abs.b))
  {
    hide AsyncFifo.DecodeA, AsyncFifo.Fifo.RdataB, AsyncFifo.Fifo.Valid, Inv, Next, PopFires, Reports;
    var pa := around.coreA(k);
    ghost var s := fifo.abs;
    Sound(fifo);
    fifo.GrantPins(pa, pb);
    granted := fifo.GrantB(pb);
    ghost var e := Edge(fifo, pa, pb, around, k);
    StatusEdgeB(fifo, s, e);
    Sound(fifo);
    word := fifo.RdataB();
  }

  /**
   Nor does one on port A, however full the FIFO is: the level it decodes to falls short of the true one by no more
   than the pushes of the last three edges.
   */
  method LoadStatusA(fifo: AsyncFifo.Fifo, pa: AsyncFifo.PinsA, around: Surroundings, k: nat)
    returns (granted: bool, word: Word)
    requires fifo.Valid() && fifo.Wired(pa.addr, pa.wdata, pa.be) && pa.rden && !pa.wren && pa.addr == 0
    requires CoreWired(fifo.aw, fifo.n, around, k)
    modifies fifo, fifo.ram, fifo.ram.mem
    ensures granted && fifo.Valid() && fifo.abs.pushed == old(fifo.abs.pushed)
    ensures old(fifo.abs.r) <= fifo.abs.r
    ensures var level := old(fifo.abs.a.word.w - fifo.abs.a.word.r);
            Reports(word, Capacity(fifo.aw), level) && old(fifo.abs.W() - fifo.abs.r - LastThree(fifo.abs.a)) <= level
  {
    hide AsyncFifo.DecodeB, AsyncFifo.Fifo.RdataA, AsyncFifo.Fifo.RdataB, AsyncFifo.Fifo.Valid, Inv, Next, Reports;
    hide PopFires;
    var pb := around.coreB(k);
    ghost var s := fifo.abs;
    Sound(fifo);
    fifo.GrantPins(pa, pb);
    granted := fifo.GrantA(pa);
    ghost var e := Edge(fifo, pa, pb, around, k);
    StatusEdgeA(fifo, s, e);
    Sound(fifo);
    word := fifo.RdataA();
  }
}
