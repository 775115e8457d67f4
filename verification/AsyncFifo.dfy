/**
 The generic branch of async_fifo.sv. The fields are its registers; each clock edge is a method.
 The ghost field abs is the same FIFO with unbounded counts, and the ghost field popped records
 the words that accepted pops put on port B's data pins.
 */
module AsyncFifo {

  import opened Words
  import opened FifoModel
  import opened FifoRefinement
  import GrayCode
  import FifoStatus
  import Dpram

  datatype PinsA = PinsA(addr: nat, wdata: Word, be: seq<bool>, wren: bool, rden: bool)
  datatype PinsB = PinsB(addr: nat, wdata: Word, be: seq<bool>, wren: bool, rden: bool)

  /** The data register sits one word above the status register at address 0. */
  function DataAddr(aw: nat, n: nat): (a: nat) { GrayCode.Wrap(n, Depth(aw)) }

  function DecodeA(aw: nat, n: nat, p: PinsA): RequestA {
    if p.wren && !p.rden && p.addr == DataAddr(aw, n) && p.be == Dpram.AllOnes(n) then Push(p.wdata)
    else if p.rden && !p.wren && p.addr == 0 then StatusA
    else if p.wren || p.rden then InvalidA
    else IdleA
  }

  function DecodeB(aw: nat, n: nat, p: PinsB): RequestB {
    if p.rden && !p.wren && p.addr == DataAddr(aw, n) then Pop
    else if p.rden && !p.wren && p.addr == 0 then StatusB
    else if p.wren || p.rden then InvalidB
    else IdleB
  }

  class Fifo {
    const aw: nat                        // AddrWidth
    const n: nat                         // bytes in a word
    const ram: Dpram.Ram

    var a: Regs                          // the registers of the write clock domain
    var b: Regs                          // the registers of the read clock domain

    ghost var abs: FifoModel.Fifo
    ghost var popped: seq<Word>

    /** The parameter checks of the source: address width, status fields, distinct registers. */
    predicate Sized() {
      3 <= aw && Capacity(aw) <= 4095 && 4 <= n && DataAddr(aw, n) != 0
    }

    ghost predicate Valid()
      reads this, ram, ram.mem
    {
      && Sized() && ram.n == n && ram.Valid()
      && Inv(abs) && abs.cap == Capacity(aw)
      && Refines(aw, n, a, abs.a, abs.W())
      && Refines(aw, n, b, abs.b, abs.r)
      && Stored(aw, ram.mem[..], n, ram.bAddr, abs)
      && popped == abs.pushed[..abs.r]
    }

    /** Port A's read data: local responses before storage data. */
    function RdataA(): Word
      reads this, ram, ram.mem
      requires ram.Valid()
    {
      if a.rvalid then a.rdata else ram.mem[ram.aAddr]
    }

    function RdataB(): Word
      reads this, ram, ram.mem
      requires ram.Valid()
    {
      if b.rvalid then b.rdata else ram.mem[ram.bAddr]
    }

    predicate Wired(addr: nat, wdata: Word, be: seq<bool>) {
      addr < Depth(aw) && |wdata| == n && |be| == n
    }

    /** Both domains in reset. */
    constructor (aw: nat, n: nat)
      requires 3 <= aw && Capacity(aw) <= 4095 && 4 <= n && DataAddr(aw, n) != 0
      ensures Valid() && fresh(ram) && fresh(ram.mem)
      ensures this.aw == aw && this.n == n && abs == Reset(Capacity(aw)) && popped == []
    {
      var zeros := seq(aw + 1, _ => false);
      var status := FifoStatus.StatusWord(Capacity(aw), 0);
      this.aw, this.n := aw, n;
      ram := new Dpram.Ram(n, Depth(aw));
      a := Regs(0, 0, zeros, zeros, zeros, false, 0, 0, 0, status, false, false, ToWord(n, 0));
      b := Regs(0, 0, zeros, zeros, zeros, true, 0, 0, 0, status, false, false, ToWord(n, 0));
      abs := Reset(Capacity(aw));
      popped := [];
      new;
      ResetRefines(aw, n, false);
      ResetRefines(aw, n, true);
      Sizes(aw);
    }

    /** A rising edge of port A's clock: every register of the write domain, and the storage. */
    method WriteDomain(p: PinsA, sampleR: seq<bool>, ghost s: FifoModel.Fifo, ghost e: Event)
      requires Sized() && ram.n == n && ram.Valid() && ram.mem.Length == Depth(aw)
      requires Wired(p.addr, p.wdata, p.be)
      requires Inv(s) && s.cap == Capacity(aw) && Refines(aw, n, a, s.a, s.W())
      requires e.a == Rises(DecodeA(aw, n, p))
      requires sampleR == GrayCode.Encode(aw + 1, NextA(s, e).meta)
      modifies this`a, ram.mem, ram`aAddr
      ensures Refines(aw, n, a, NextA(s, e), s.W() + Bit(PushFires(s, e.a)))
      ensures ram.Valid()
      ensures ram.mem[..] == if PushFires(s, e.a) then old(ram.mem[..])[GrayCode.Wrap(s.W(), Depth(aw)) := p.wdata]
                             else old(ram.mem[..])
    {
      hide Bit, Capacity, DataAddr, Dpram.AllOnes, Dpram.Masked, GrayCode.Encode, GrayCode.Wrap, Inv;
      hide Modulus, Next, NextA, Ordered, StatusMatches, Valid;
      ghost var next := NextA(s, e);
      var pushReq := p.wren && !p.rden && p.addr == DataAddr(aw, n) && p.be == Dpram.AllOnes(n);
      var statusReq := p.rden && !p.wren && p.addr == 0;
      var invalidReq := (p.wren || p.rden) && !(pushReq || statusReq);
      var wren := pushReq && !a.guard;
      // the storage grants at once
      var fire := wren;
      assert a.addr == GrayCode.Wrap(s.W(), Depth(aw)) && a.sync == GrayCode.Encode(aw + 1, s.a.sync)
             && a.countBin == GrayCode.Wrap(s.W(), Modulus(aw)) && a.guard == s.a.guard;
      assert fire == PushFires(s, e.a) && (statusReq <==> e.a.req.StatusA?) && (invalidReq <==> e.a.req.InvalidA?);
      EdgeOfA(s, e);
      var rcount := BinaryOf(aw, a.sync, s.a.sync);
      var full := FullNext(aw, a.countBin, rcount, fire, s.W(), s.a.sync);
      if fire {
        assert p.be == Dpram.AllOnes(n);
        assert |ram.mem[a.addr]| == n;
        Dpram.MaskedAll(ram.mem[a.addr], p.wdata);
      }
      ram.EdgeA(a.addr, p.wdata, p.be, wren, false);
      a := StatusPipeline(aw, n, a, a.countBin, rcount, statusReq, invalidReq, s.a, next);
      a := Count(aw, a, sampleR, fire, full, s.a, s.W(), next);
    }

    /** A rising edge of port B's clock: every register of the read domain, and the read address. */
    method ReadDomain(p: PinsB, sampleW: seq<bool>, ghost s: FifoModel.Fifo, ghost e: Event)
      requires Sized() && ram.n == n && ram.Valid() && ram.mem.Length == Depth(aw)
      requires Wired(p.addr, p.wdata, p.be)
      requires Inv(s) && s.cap == Capacity(aw) && Refines(aw, n, b, s.b, s.r)
      requires e.b == Rises(DecodeB(aw, n, p))
      requires sampleW == GrayCode.Encode(aw + 1, NextB(s, e).meta)
      modifies this`b, ram.mem, ram`bAddr
      ensures Refines(aw, n, b, NextB(s, e), s.r + Bit(PopFires(s, e.b)))
      ensures ram.Valid() && ram.mem[..] == old(ram.mem[..])
      ensures ram.bAddr == if PopFires(s, e.b) then GrayCode.Wrap(s.r, Depth(aw)) else old(ram.bAddr)
    {
      hide Bit, Capacity, DataAddr, Dpram.Masked, Dpram.Ram.Valid, GrayCode.Encode, GrayCode.Wrap, Inv, Modulus;
      hide Next, NextB, Ordered, RdataB, StatusMatches, Valid;
      ghost var next := NextB(s, e);
      var popReq := p.rden && !p.wren && p.addr == DataAddr(aw, n);
      var statusReq := p.rden && !p.wren && p.addr == 0;
      var invalidReq := (p.wren || p.rden) && !(popReq || statusReq);
      var rden := popReq && !b.guard;
      // the storage grants at once
      var fire := rden;
      assert b.addr == GrayCode.Wrap(s.r, Depth(aw)) && b.sync == GrayCode.Encode(aw + 1, s.b.sync)
             && b.countBin == GrayCode.Wrap(s.r, Modulus(aw)) && b.guard == s.b.guard;
      assert fire == PopFires(s, e.b) && (statusReq <==> e.b.req.StatusB?) && (invalidReq <==> e.b.req.InvalidB?);
      EdgeOfB(s, e);
      var wcount := BinaryOf(aw, b.sync, s.b.sync);
      var empty := EmptyNext(aw, wcount, b.countBin, fire, s.b.sync, s.r);
      ram.EdgeB(b.addr, p.wdata, p.be, false, rden);
      b := StatusPipeline(aw, n, b, wcount, b.countBin, statusReq, invalidReq, s.b, next);
      b := Count(aw, b, sampleW, fire, empty, s.b, s.r, next);
    }

    /** Either clock or both rise; the samples are what the first synchronizer stages capture. */
    method Edge(pa: Clock<PinsA>, pb: Clock<PinsB>, sampleR: seq<bool>, sampleW: seq<bool>, ghost e: Event)
      requires Valid()
      requires pa.Rises? ==> Wired(pa.req.addr, pa.req.wdata, pa.req.be)
      requires pb.Rises? ==> Wired(pb.req.addr, pb.req.wdata, pb.req.be)
      requires e.a == (if pa.Rises? then Rises(DecodeA(aw, n, pa.req)) else Rests)
      requires e.b == (if pb.Rises? then Rises(DecodeB(aw, n, pb.req)) else Rests)
      requires pa.Rises? ==> sampleR == GrayCode.Encode(aw + 1, NextA(abs, e).meta)
      requires pb.Rises? ==> sampleW == GrayCode.Encode(aw + 1, NextB(abs, e).meta)
      modifies this, ram, ram.mem
      ensures Valid() && abs == Next(old(abs), e)
      ensures popped == if PopFires(old(abs), e.b) then old(popped) + [RdataB()] else old(popped)
    {
      hide Accepted, Capacity, CountsMatch, DataAddr, DecodeB, Depth, Dpram.AllOnes, Dpram.Ram.Valid;
      hide GrayCode.Encode, GrayCode.Wrap, Inv, Level, Modulus, ReplyA, ReplyData, StatusOf, Stay;
      ghost var s, mem, bAddr := abs, ram.mem[..], ram.bAddr;
      assert |mem| == Depth(aw);
      assert !pa.Rises? ==> NextA(s, e) == Stay(s.a, PopFires(s, e.b)) && !PushFires(s, e.a);
      assert !pb.Rises? ==> NextB(s, e) == Stay(s.b, PushFires(s, e.a)) && !PopFires(s, e.b);
      if pa.Rises? {
        WriteDomain(pa.req, sampleR, s, e);
      } else {
        RestRefines(aw, n, a, s.a, s.W(), PopFires(s, e.b));
      }
      if pb.Rises? {
        ReadDomain(pb.req, sampleW, s, e);
      } else {
        RestRefines(aw, n, b, s.b, s.r, PushFires(s, e.a));
      }
      abs := Next(abs, e);
      NextInv(s, e);
      NextCounts(s, e);
      assert PushFires(s, e.a) ==> e.a.req.word == pa.req.wdata && |e.a.req.word| == n;
      NextStored(aw, n, s, e, mem, bAddr, ram.mem[..], ram.bAddr);
      if PopFires(s, e.b) {
        assert !b.rvalid;
        popped := popped + [ram.mem[ram.bAddr]];
      }
      assert abs.cap == s.cap && abs.a == NextA(s, e) && abs.b == NextB(s, e)
             && s.pushed <= abs.pushed && s.r <= |s.pushed|;
      assert popped == abs.pushed[..abs.r];
    }

    /** The Gray registers that each domain exports, as they are after an edge with these pins. */
    function GrayAfterA(p: PinsA): seq<bool>
      reads this
      requires a.countBin < Modulus(aw)
    {
      if DecodeA(aw, n, p).Push? && !a.guard then GrayCode.BinToGray(GrayCode.Bits(aw + 1, CountNext(aw, a.countBin)))
      else a.countGray
    }

    function GrayAfterB(p: PinsB): seq<bool>
      reads this
      requires b.countBin < Modulus(aw)
    {
      if DecodeB(aw, n, p).Pop? && !b.guard then GrayCode.BinToGray(GrayCode.Bits(aw + 1, CountNext(aw, b.countBin)))
      else b.countGray
    }

    /** The exported Gray codes stand for the counts before and after the edge. */
    lemma GrayCodes(pa: PinsA, pb: PinsB)
      requires Valid()
      ensures a.countBin < Modulus(aw) && a.countGray == GrayCode.Encode(aw + 1, abs.W())
      ensures b.countBin < Modulus(aw) && b.countGray == GrayCode.Encode(aw + 1, abs.r)
      ensures GrayAfterA(pa) == GrayCode.Encode(aw + 1, abs.W() + Bit(PushFires(abs, Rises(DecodeA(aw, n, pa)))))
      ensures GrayAfterB(pb) == GrayCode.Encode(aw + 1, abs.r + Bit(PopFires(abs, Rises(DecodeB(aw, n, pb)))))
    {
      hide GrayCode.Wrap, GrayCode.Encode, CountNext, GrayCode.BinToGray, GrayCode.Bits, DecodeA, DecodeB;
      hide StatusMatches;
      hide Stored, InvA, InvB;
      CountAfterTransfer(aw, abs.W());
      CountAfterTransfer(aw, abs.r);
    }

    /** A rising edge of port A's clock alone. */
    method EdgeA(p: PinsA)
      requires Valid() && Wired(p.addr, p.wdata, p.be)
      modifies this, ram, ram.mem
      ensures Valid() && popped == old(popped)
      ensures abs == Next(old(abs), Event(Rises(DecodeA(aw, n, p)), Rests, false, false))
    {
      hide DecodeA, DecodeB, Dpram.Masked, Dpram.Ram.Valid, GrayAfterA, GrayAfterB, GrayCode.Encode, Modulus;
      hide Next, NextB, PushFires, RdataB, ReplyA, Stay, Valid, Wired;
      GrayCodes(p, PinsB(0, [], [], false, false));
      Edge(Rises(p), Rests, b.countGray, [], Event(Rises(DecodeA(aw, n, p)), Rests, false, false));
    }

    /** A rising edge of port B's clock alone; a pop brings the next word to the data pins. */
    method EdgeB(p: PinsB)
      requires Valid() && Wired(p.addr, p.wdata, p.be)
      modifies this, ram, ram.mem
      ensures Valid()
      ensures abs == Next(old(abs), Event(Rests, Rises(DecodeB(aw, n, p)), false, false))
      ensures popped == if PopFires(old(abs), Rises(DecodeB(aw, n, p))) then old(popped) + [RdataB()] else old(popped)
    {
      hide DecodeA, DecodeB, Dpram.Masked, Dpram.Ram.Valid, GrayAfterA, GrayAfterB, GrayCode.Encode, Modulus;
      hide Next, NextA, PopFires, RdataB, ReplyB, Stay, Valid, Wired;
      GrayCodes(PinsA(0, [], [], false, false), p);
      Edge(Rests, Rises(p), [], a.countGray, Event(Rests, Rises(DecodeB(aw, n, p)), false, false));
    }

    /**
     Both clocks rise together. Each bit that a synchronizer catches while it changes may settle
     either way; the event e says which counts were captured.
     */
    method EdgeBoth(pa: PinsA, pb: PinsB, sampleR: seq<bool>, sampleW: seq<bool>) returns (ghost e: Event)
      requires Valid() && Wired(pa.addr, pa.wdata, pa.be) && Wired(pb.addr, pb.wdata, pb.be)
      requires a.countBin < Modulus(aw) && GrayCode.Settles(a.countGray, GrayAfterA(pa), sampleW)
      requires b.countBin < Modulus(aw) && GrayCode.Settles(b.countGray, GrayAfterB(pb), sampleR)
      modifies this, ram, ram.mem
      ensures Valid()
      ensures e.a == Rises(DecodeA(aw, n, pa)) && e.b == Rises(DecodeB(aw, n, pb)) && abs == Next(old(abs), e)
      ensures popped == if PopFires(old(abs), e.b) then old(popped) + [RdataB()] else old(popped)
    {
      hide DecodeA, DecodeB, Dpram.Ram.Valid, GrayAfterA, GrayAfterB, GrayCode.Encode, GrayCode.Settles;
      hide Modulus, Next, PopFires, PushFires, RdataB, ReplyA, ReplyB, Stay, Valid, Wired;
      GrayCodes(pa, pb);
      var push, pop := PushFires(abs, Rises(DecodeA(aw, n, pa))), PopFires(abs, Rises(DecodeB(aw, n, pb)));
      GrayCode.SampleIsOldOrNew(aw + 1, abs.W(), abs.W() + Bit(push), sampleW);
      GrayCode.SampleIsOldOrNew(aw + 1, abs.r, abs.r + Bit(pop), sampleR);
      e := Event(Rises(DecodeA(aw, n, pa)), Rises(DecodeB(aw, n, pb)), sampleR != b.countGray, sampleW != a.countGray);
      assert sampleR == GrayCode.Encode(aw + 1, NextA(abs, e).meta);
      assert sampleW == GrayCode.Encode(aw + 1, NextB(abs, e).meta);
      Edge(Rises(pa), Rises(pb), sampleR, sampleW, e);
    }

    /** The grants. Status and invalid accesses never wait; everything else waits for the flag. */
    predicate GrantA(p: PinsA)
      reads this
    {
      var request := DecodeA(aw, n, p);
      request.StatusA? || request.InvalidA? || !a.guard
    }

    predicate GrantB(p: PinsB)
      reads this
    {
      var request := DecodeB(aw, n, p);
      request.StatusB? || request.InvalidB? || !b.guard
    }

    /**
     The grants by the pins. A port waits only while it carries a well-formed data access, or nothing,
     and its flag is set: a status access is granted in its first cycle, however full or empty the FIFO is.
     */
    lemma GrantPins(pa: PinsA, pb: PinsB)
      requires Valid() && |pa.be| == n
      ensures pa.rden && !pa.wren && pa.addr == 0 ==> GrantA(pa)
      ensures pb.rden && !pb.wren && pb.addr == 0 ==> GrantB(pb)
      ensures !GrantA(pa) <==>
        a.guard && !pa.rden && (pa.wren ==> pa.addr == DataAddr(aw, n) && forall i :: 0 <= i < n ==> pa.be[i])
      ensures !GrantB(pb) <==> b.guard && !pb.wren && (pb.rden ==> pb.addr == DataAddr(aw, n))
    {
      assert (forall i :: 0 <= i < n ==> pa.be[i]) ==> pa.be == Dpram.AllOnes(n);
    }

    /** A data access is granted exactly in the cycle in which it fires, and then the FIFO has room, or a word. */
    lemma Grants(pa: PinsA, pb: PinsB)
      requires Valid()
      ensures DecodeA(aw, n, pa).Push? ==>
        (GrantA(pa) <==> PushFires(abs, Rises(DecodeA(aw, n, pa)))) && (GrantA(pa) ==> abs.W() < abs.r + abs.cap)
      ensures DecodeB(aw, n, pb).Pop? ==>
        (GrantB(pb) <==> PopFires(abs, Rises(DecodeB(aw, n, pb)))) && (GrantB(pb) ==> abs.r < abs.W())
    {
      hide DecodeA, DecodeB, StatusMatches, Stored, GrayCode.Encode, GrayCode.Wrap;
    }

    /** What the pins show: the status of three edges ago, an error and zeros, or the word last popped. */
    lemma Responses()
      requires Valid()
      ensures abs.a.reply.StatusReply? ==> RdataA() == ToWord(n, StatusOf(aw, abs.a.reply.counts))
      ensures abs.b.reply.StatusReply? ==> RdataB() == ToWord(n, StatusOf(aw, abs.b.reply.counts))
      ensures (a.err <==> abs.a.reply.ErrorReply?) && (a.err ==> a.rvalid && RdataA() == ToWord(n, 0))
      ensures (b.err <==> abs.b.reply.ErrorReply?) && (b.err ==> b.rvalid && RdataB() == ToWord(n, 0))
      ensures abs.b.reply.NoReply? && abs.r > 0 ==> RdataB() == abs.pushed[abs.r - 1]
    {
      hide StatusOf, ToWord, Inv, GrayCode.Encode, GrayCode.Wrap;
    }
  }

  /** One moment of a run: which clock rises, what the pins are, and how the synchronizers settle. */
  datatype Tick =
    | TickA(pa: PinsA)
    | TickB(pb: PinsB)
    | TickBoth(pa: PinsA, pb: PinsB, lateR: nat -> bool, lateW: nat -> bool)

  predicate WellWired(aw: nat, n: nat, tick: Tick) {
    && (!tick.TickB? ==> tick.pa.addr < Depth(aw) && |tick.pa.wdata| == |tick.pa.be| == n)
    && (!tick.TickA? ==> tick.pb.addr < Depth(aw) && |tick.pb.wdata| == |tick.pb.be| == n)
  }

  /** The event that a tick is: the same clocks rise, with the requests that the pins ask for. */
  predicate Follows(aw: nat, n: nat, tick: Tick, e: Event) {
    && e.a == (if tick.TickB? then Rests else Rises(DecodeA(aw, n, tick.pa)))
    && e.b == (if tick.TickA? then Rests else Rises(DecodeB(aw, n, tick.pb)))
  }

  /**
   Any run from reset, whatever the interleaving of the clocks and the requests: the registers
   follow the run of the unbounded machine on the requests that the pins carry, and the words that
   came out are the first of the words that went in, in order.
   */
  method Drive(aw: nat, n: nat, ticks: seq<Tick>) returns (fifo: Fifo, ghost events: seq<Event>)
    requires 3 <= aw && Capacity(aw) <= 4095 && 4 <= n && DataAddr(aw, n) != 0
    requires forall k :: 0 <= k < |ticks| ==> WellWired(aw, n, ticks[k])
    ensures fresh(fifo) && fifo.Valid() && |events| == |ticks|
    ensures forall i :: 0 <= i < |ticks| ==> Follows(aw, n, ticks[i], events[i])
    ensures fifo.abs == Run(Reset(Capacity(aw)), events)
    ensures fifo.popped <= fifo.abs.pushed && 0 <= |fifo.abs.pushed| - |fifo.popped| <= Capacity(aw)
    ensures |fifo.popped| > 0 && !fifo.b.rvalid ==> fifo.RdataB() == fifo.popped[|fifo.popped| - 1]
  {
    hide Bit, Capacity, DataAddr, DecodeA, DecodeB, Depth, Dpram.Masked, Dpram.Ram.Valid, Fifo.GrayAfterA;
    hide Fifo.GrayAfterB, Fifo.RdataB, Fifo.Valid, GrayCode.Encode, GrayCode.Sample, GrayCode.Settles;
    hide Modulus, Next, PopFires, PushFires, Reset;
    fifo := new Fifo(aw, n);
    events := [];
    assert fifo.abs == Run(Reset(Capacity(aw)), events);
    for i := 0 to |ticks|
      invariant fresh(fifo) && fresh(fifo.ram) && fresh(fifo.ram.mem) && fifo.aw == aw && fifo.n == n
      invariant fifo.Valid() && |events| == i && fifo.abs == Run(Reset(Capacity(aw)), events)
      invariant forall k :: 0 <= k < i ==> Follows(aw, n, ticks[k], events[k])
    {
      ghost var e;
      match ticks[i] {
        case TickA(pa) =>
          fifo.EdgeA(pa);
          e := Event(Rises(DecodeA(aw, n, pa)), Rests, false, false);
        case TickB(pb) =>
          fifo.EdgeB(pb);
          e := Event(Rests, Rises(DecodeB(aw, n, pb)), false, false);
        case TickBoth(pa, pb, lateR, lateW) =>
          fifo.GrayCodes(pa, pb);
          var sampleR := GrayCode.Sample(fifo.b.countGray, fifo.GrayAfterB(pb), lateR);
          var sampleW := GrayCode.Sample(fifo.a.countGray, fifo.GrayAfterA(pa), lateW);
          e := fifo.EdgeBoth(pa, pb, sampleR, sampleW);
      }
      RunAppend(Reset(Capacity(aw)), events, e);
      events := events + [e];
    }
    Safe(fifo);
  }

  /** What validity says about the words that went in and came out. */
  lemma Safe(fifo: Fifo)
    requires fifo.Valid()
    ensures fifo.popped <= fifo.abs.pushed && 0 <= |fifo.abs.pushed| - |fifo.popped| <= Capacity(fifo.aw)
    ensures |fifo.popped| > 0 && !fifo.b.rvalid ==> fifo.RdataB() == fifo.popped[|fifo.popped| - 1]
  {
    hide StatusOf, ToWord, GrayCode.Encode, GrayCode.Wrap;
    fifo.Responses();
  }
}
