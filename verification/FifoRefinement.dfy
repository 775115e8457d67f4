/**
 How the wrapped, Gray-coded registers of one clock domain of async_fifo.sv stand for the
 unbounded counts of FifoModel, and why each computation on the registers is right.
 */
module FifoRefinement {

  import opened Words
  import opened FifoModel
  import opened GrayCode
  import FifoStatus

  function Depth(aw: nat): nat { Pow2(aw) }
  function Modulus(aw: nat): nat { Pow2(aw + 1) }
  function Capacity(aw: nat): nat { Pow2(aw) - 1 }

  /** The registers of one clock domain. */
  datatype Regs = Regs(
    addr: nat, countBin: nat, countGray: seq<bool>,
    meta: seq<bool>, sync: seq<bool>,
    guard: bool,
    statusW: nat, statusR: nat, statusLevel: nat, statusWord: nat,
    rvalid: bool, err: bool, rdata: Word)

  function Level(c: Counts): nat { if c.w >= c.r then c.w - c.r else 0 }

  function StatusOf(aw: nat, c: Counts): nat {
    FifoStatus.StatusWord(Capacity(aw), Level(c))
  }

  /** The registered data of a local response. */
  function ReplyData(aw: nat, n: nat, reply: Reply): Word {
    match reply
    case StatusReply(c) => ToWord(n, StatusOf(aw, c))
    case _ => ToWord(n, 0)
  }

  ghost predicate CountsMatch(aw: nat, g: Regs, d: Domain, own: nat) {
    && g.addr == Wrap(own, Depth(aw))
    && g.countBin == Wrap(own, Modulus(aw))
    && g.countGray == Encode(aw + 1, own)
    && g.meta == Encode(aw + 1, d.meta)
    && g.sync == Encode(aw + 1, d.sync)
    && (g.guard <==> d.guard)
  }

  ghost predicate StatusMatches(aw: nat, n: nat, g: Regs, d: Domain) {
    && g.statusW == Wrap(d.snap.w, Modulus(aw))
    && g.statusR == Wrap(d.snap.r, Modulus(aw))
    && g.statusLevel == Level(d.level)
    && g.statusWord == StatusOf(aw, d.word)
    && (g.rvalid <==> !d.reply.NoReply?)
    && (g.err <==> d.reply.ErrorReply?)
    && g.rdata == ReplyData(aw, n, d.reply)
  }

  /** The registers hold what the domain d says; own counts the transfers of this domain. */
  ghost predicate Refines(aw: nat, n: nat, g: Regs, d: Domain, own: nat) {
    CountsMatch(aw, g, d, own) && StatusMatches(aw, n, g, d)
  }

  /** A domain whose clock rests keeps standing for the same counts. */
  lemma RestRefines(aw: nat, n: nat, g: Regs, d: Domain, own: nat, moved: bool)
    requires Refines(aw, n, g, d, own)
    ensures Refines(aw, n, g, Stay(d, moved), own)
  {}

  lemma Sizes(aw: nat)
    requires aw > 0
    ensures Modulus(aw) == 2 * Depth(aw) && Depth(aw) >= 2 && Capacity(aw) >= 1 && Capacity(aw) + 1 == Depth(aw)
  {
    assert Pow2(aw) == 2 * Pow2(aw - 1);
  }

  /** Reset sets every register to zero except the flags and the status word. */
  lemma ResetRefines(aw: nat, n: nat, empty: bool)
    requires aw > 0
    ensures Encode(aw + 1, 0) == seq(aw + 1, _ => false)
    ensures Refines(aw, n, Regs(0, 0, seq(aw + 1, _ => false), seq(aw + 1, _ => false), seq(aw + 1, _ => false), empty,
                                0, 0, 0, FifoStatus.StatusWord(Capacity(aw), 0), false, false, ToWord(n, 0)),
                    ResetDomain(empty), 0)
  {
    Sizes(aw);
    ZeroBits(aw + 1);
    assert Encode(aw + 1, 0) == seq(aw + 1, _ => false);
  }

  lemma {:induction false} ZeroBits(n: nat)
    ensures Bits(n, 0) == seq(n, _ => false)
  {
    if n > 0 { ZeroBits(n - 1); }
  }

  // ---------------------------------------------------------------------------
  // Counters
  // ---------------------------------------------------------------------------

  /** The next value of an event counter. */
  function CountNext(aw: nat, bin: nat): (r: nat)
    requires bin < Modulus(aw)
    ensures r < Modulus(aw)
  {
    if bin + 1 == Modulus(aw) then 0 else bin + 1
  }

  /** incr_addr */
  function IncrAddr(aw: nat, addr: nat): (r: nat)
    requires addr < Depth(aw)
    ensures r < Depth(aw)
  {
    if addr == Depth(aw) - 1 then 0 else addr + 1
  }

  lemma CountAfterTransfer(aw: nat, own: nat)
    ensures CountNext(aw, Wrap(own, Modulus(aw))) == Wrap(own + 1, Modulus(aw))
    ensures BinToGray(Bits(aw + 1, CountNext(aw, Wrap(own, Modulus(aw))))) == Encode(aw + 1, own + 1)
    ensures IncrAddr(aw, Wrap(own, Depth(aw))) == Wrap(own + 1, Depth(aw))
  {
    WrapStep(own, Modulus(aw));
    WrapStep(own, Depth(aw));
  }

  /** The occupancy computed from a counter and a synchronized Gray code. */
  lemma OccupancyOfRegisters(aw: nat, w: nat, r: nat)
    requires aw > 0 && r <= w <= r + Capacity(aw)
    ensures WrapSub(Wrap(w, Modulus(aw)), Wrap(r, Modulus(aw)), Modulus(aw)) == w - r
  {
    Sizes(aw);
    WrapDifference(w, r, Modulus(aw));
  }

  // ---------------------------------------------------------------------------
  // One clock edge of the registers that both domains have
  // ---------------------------------------------------------------------------

  /** gray_to_bin as the status and guard logic uses it. */
  method BinaryOf(aw: nat, gray: seq<bool>, ghost count: nat) returns (bin: nat)
    requires gray == Encode(aw + 1, count)
    ensures bin == Wrap(count, Modulus(aw))
  {
    hide Encode, Parities, Value, Wrap;
    var bits := GrayToBin(gray);
    bin := Value(bits);
    assert bin == Decode(gray);
    DecodeEncode(aw + 1, count);
  }

  /** The look-ahead full flag, from the occupancy that port A sees. */
  method FullNext(aw: nat, wcount: nat, rcount: nat, fire: bool, ghost w: nat, ghost r: nat) returns (full: bool)
    requires 0 < aw && r <= w <= r + Capacity(aw)
    requires wcount == Wrap(w, Modulus(aw)) && rcount == Wrap(r, Modulus(aw))
    ensures full <==> w + Bit(fire) >= r + Capacity(aw)
  {
    hide Wrap, WrapSub, Modulus, Capacity;
    OccupancyOfRegisters(aw, w, r);
    var level := WrapSub(wcount, rcount, Modulus(aw));
    if fire && level < Capacity(aw) {
      level := level + 1;
    }
    full := level >= Capacity(aw);
  }

  /** The look-ahead empty flag, from the occupancy that port B sees. */
  method EmptyNext(aw: nat, wcount: nat, rcount: nat, fire: bool, ghost w: nat, ghost r: nat) returns (empty: bool)
    requires 0 < aw && r <= w <= r + Capacity(aw)
    requires wcount == Wrap(w, Modulus(aw)) && rcount == Wrap(r, Modulus(aw))
    ensures empty <==> w <= r + Bit(fire)
  {
    hide Wrap, WrapSub, Modulus, Capacity;
    OccupancyOfRegisters(aw, w, r);
    var level := WrapSub(wcount, rcount, Modulus(aw));
    if fire && level != 0 {
      level := level - 1;
    }
    empty := level == 0;
  }

  /** Counters, synchronizer and flag after an edge. */
  method Count(aw: nat, g: Regs, sample: seq<bool>, fire: bool, guard: bool,
               ghost d: Domain, ghost own: nat, ghost next: Domain)
    returns (g': Regs)
    requires CountsMatch(aw, g, d, own)
    requires sample == Encode(aw + 1, next.meta) && next.sync == d.meta && next.guard == guard
    ensures CountsMatch(aw, g', next, own + Bit(fire))
    ensures forall n, e :: StatusMatches(aw, n, g, e) <==> StatusMatches(aw, n, g', e)
  {
    hide Wrap, Encode, CountNext, IncrAddr, BinToGray, Bits, Modulus, Depth;
    CountAfterTransfer(aw, own);
    g' := g.(sync := g.meta, meta := sample, guard := guard);
    if fire {
      g' := g'.(addr := IncrAddr(aw, g.addr), countBin := CountNext(aw, g.countBin),
                countGray := BinToGray(Bits(aw + 1, CountNext(aw, g.countBin))));
    }
  }

  /** Status pipeline and local response after an edge, from the registers before it. */
  method StatusPipeline(aw: nat, n: nat, g: Regs, seenW: nat, seenR: nat, status: bool, invalid: bool,
                        ghost d: Domain, ghost next: Domain)
    returns (g': Regs)
    requires 0 < aw && Ordered(d.snap, Capacity(aw)) && StatusMatches(aw, n, g, d)
    requires seenW == Wrap(next.snap.w, Modulus(aw)) && seenR == Wrap(next.snap.r, Modulus(aw))
    requires next.level == d.snap && next.word == d.level
    requires next.reply == if status then StatusReply(d.word) else if invalid then ErrorReply else NoReply
    requires !(status && invalid)
    ensures StatusMatches(aw, n, g', next)
    ensures forall e, own :: CountsMatch(aw, g, e, own) <==> CountsMatch(aw, g', e, own)
  {
    hide Wrap, FifoStatus.StatusWord, WrapSub, ToWord, Modulus, Capacity;
    OccupancyOfRegisters(aw, d.snap.w, d.snap.r);
    g' := g.(rvalid := status || invalid, err := invalid,
             rdata := if status then ToWord(n, g.statusWord) else ToWord(n, 0),
             statusWord := FifoStatus.StatusWord(Capacity(aw), g.statusLevel),
             statusLevel := WrapSub(g.statusW, g.statusR, Modulus(aw)),
             statusW := seenW, statusR := seenR);
  }

  // ---------------------------------------------------------------------------
  // What an edge needs to know about the unbounded counts
  // ---------------------------------------------------------------------------

  lemma EdgeOfA(s: Fifo, e: Event)
    requires Inv(s) && e.a.Rises?
    ensures s.a.sync <= s.W() <= s.a.sync + s.cap && Ordered(s.a.snap, s.cap)
    ensures var next := NextA(s, e);
            && next.snap == Counts(s.W(), s.a.sync) && next.level == s.a.snap && next.word == s.a.level
            && next.reply == ReplyA(s.a, e.a.req) && next.sync == s.a.meta
            && (next.guard <==> s.W() + Bit(PushFires(s, e.a)) >= s.a.sync + s.cap)
  {}

  lemma EdgeOfB(s: Fifo, e: Event)
    requires Inv(s) && e.b.Rises?
    ensures s.r <= s.b.sync <= s.r + s.cap && Ordered(s.b.snap, s.cap)
    ensures var next := NextB(s, e);
            && next.snap == Counts(s.b.sync, s.r) && next.level == s.b.snap && next.word == s.b.level
            && next.reply == ReplyB(s.b, e.b.req) && next.sync == s.b.meta
            && (next.guard <==> s.b.sync <= s.r + Bit(PopFires(s, e.b)))
  {}

  // ---------------------------------------------------------------------------
  // Storage
  // ---------------------------------------------------------------------------

  /** Every word from the last popped one on still sits in its slot. */
  ghost predicate Stored(aw: nat, mem: seq<Word>, n: nat, bAddr: nat, s: Fifo) {
    && |mem| == Depth(aw)
    && s.r <= s.W()
    && (forall k :: 0 <= k < s.W() ==> |s.pushed[k]| == n)
    && (forall k :: s.r - 1 <= k < s.W() && 0 <= k ==> mem[Wrap(k, Depth(aw))] == s.pushed[k])
    && (s.r > 0 ==> bAddr == Wrap(s.r - 1, Depth(aw)))
  }

  /** A push lands in the one unused slot: neither a stored word nor the word last popped is lost. */
  lemma PushStored(aw: nat, mem: seq<Word>, n: nat, bAddr: nat, s: Fifo, word: Word, s': Fifo)
    requires aw > 0 && Stored(aw, mem, n, bAddr, s) && s.W() < s.r + Capacity(aw) && |word| == n
    requires s'.pushed == s.pushed + [word] && s'.r == s.r
    ensures Stored(aw, mem[Wrap(s.W(), Depth(aw)) := word], n, bAddr, s')
  {
    var slot := Wrap(s.W(), Depth(aw));
    var mem' := mem[slot := word];
    forall k | s.r - 1 <= k < s'.W() && 0 <= k ensures mem'[Wrap(k, Depth(aw))] == s'.pushed[k] {
      if k < s.W() {
        if Wrap(k, Depth(aw)) == slot {
          WrapInjective(s.W(), k, Depth(aw));
          assert false;
        }
      }
    }
  }

  /** The storage after one event: what a push writes, and the read address a pop registers. */
  lemma NextStored(aw: nat, n: nat, s: Fifo, e: Event, mem: seq<Word>, bAddr: nat, mem': seq<Word>, bAddr': nat)
    requires aw > 0 && Inv(s) && s.cap == Capacity(aw) && Stored(aw, mem, n, bAddr, s)
    requires PushFires(s, e.a) ==> |e.a.req.word| == n
    requires mem' == if PushFires(s, e.a) then mem[Wrap(s.W(), Depth(aw)) := e.a.req.word] else mem
    requires bAddr' == if PopFires(s, e.b) then Wrap(s.r, Depth(aw)) else bAddr
    ensures Stored(aw, mem', n, bAddr', Next(s, e))
    ensures PopFires(s, e.b) ==> s.r < s.W() && Next(s, e).pushed[..s.r + 1] == s.pushed[..s.r] + [mem'[bAddr']]
  {
    hide NextA, NextB, Wrap, Pow2;
    assert PushFires(s, e.a) ==> s.W() < s.r + s.cap;
    assert PopFires(s, e.b) ==> s.r < s.W();
    var mid := s.(pushed := s.pushed + Accepted(s, e));
    if PushFires(s, e.a) {
      PushStored(aw, mem, n, bAddr, s, e.a.req.word, mid);
    } else {
      assert mid == s;
    }
  }
}
