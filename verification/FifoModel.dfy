/**
 The dual-clock FIFO of async_fifo.sv (generic branch) seen through unbounded event counts: what
 the registers would hold if nothing wrapped and nothing were encoded. The class AsyncFifo
 refines this machine; the promises about all runs are proved here.
 */
module FifoModel {

  import opened Words

  datatype RequestA = IdleA | Push(word: Word) | StatusA | InvalidA
  datatype RequestB = IdleB | Pop | StatusB | InvalidB

  datatype Clock<R> = Rises(req: R) | Rests

  /**
   One moment of the FIFO: port A's clock rises, port B's clock rises, or both. A synchronizer
   that captures the other domain's count while it changes gets the old or the new count.
   */
  datatype Event = Event(a: Clock<RequestA>, b: Clock<RequestB>, newR: bool, newW: bool)

  /** A write count and a read count that were read together. */
  datatype Counts = Counts(w: nat, r: nat)

  datatype Reply = NoReply | StatusReply(counts: Counts) | ErrorReply

  /** The registers of one clock domain, and a record of its last edges. */
  datatype Domain = Domain(
    meta: nat,         // the other domain's count, first synchronizer stage
    sync: nat,         // second stage
    snap: Counts,      // status pipeline: counter snapshots
    level: Counts,     // status pipeline: the counts behind the level register
    word: Counts,      // status pipeline: the counts behind the status word
    guard: bool,       // registered full (port A) or empty (port B) flag
    reply: Reply,      // the registered local response
    fired1: bool,      // whether a transfer fired at the last edge,
    fired2: bool,      //   at the one before,
    fired3: bool,      //   and at the one before that
    settled: nat)      // own edges since the other domain's count last changed

  datatype Fifo = Fifo(cap: nat, pushed: seq<Word>, r: nat, a: Domain, b: Domain) {
    function W(): nat { |pushed| }
  }

  function ResetDomain(guard: bool): Domain {
    Domain(0, 0, Counts(0, 0), Counts(0, 0), Counts(0, 0), guard, NoReply, false, false, false, 0)
  }

  /** Both resets asserted together. */
  function Reset(cap: nat): Fifo {
    Fifo(cap, [], 0, ResetDomain(false), ResetDomain(true))
  }

  // ---------------------------------------------------------------------------
  // Steps
  // ---------------------------------------------------------------------------

  /** A push is accepted unless the registered full flag is set. */
  predicate PushFires(s: Fifo, a: Clock<RequestA>) {
    a.Rises? && a.req.Push? && !s.a.guard
  }

  predicate PopFires(s: Fifo, b: Clock<RequestB>) {
    b.Rises? && b.req.Pop? && !s.b.guard
  }

  function Bit(b: bool): nat { if b then 1 else 0 }

  /** What an edge does to the registers of its domain; moved: the other domain's count changes too. */
  function Advance(d: Domain, sample: nat, seen: Counts, guard: bool, reply: Reply, fired: bool, moved: bool): Domain {
    Domain(sample, d.meta, seen, d.snap, d.level, guard, reply, fired, d.fired1, d.fired2,
           if moved then 0 else d.settled + 1)
  }

  function Stay(d: Domain, moved: bool): Domain {
    if moved then d.(settled := 0) else d
  }

  function ReplyA(a: Domain, req: RequestA): Reply {
    match req case StatusA => StatusReply(a.word) case InvalidA => ErrorReply case _ => NoReply
  }

  function ReplyB(b: Domain, req: RequestB): Reply {
    match req case StatusB => StatusReply(b.word) case InvalidB => ErrorReply case _ => NoReply
  }

  function NextA(s: Fifo, e: Event): Domain {
    var push, pop := PushFires(s, e.a), PopFires(s, e.b);
    if e.a.Rests? then Stay(s.a, pop)
    else Advance(s.a, s.r + Bit(pop && e.newR), Counts(s.W(), s.a.sync),
                 s.W() + Bit(push) >= s.a.sync + s.cap, ReplyA(s.a, e.a.req), push, pop)
  }

  function NextB(s: Fifo, e: Event): Domain {
    var push, pop := PushFires(s, e.a), PopFires(s, e.b);
    if e.b.Rests? then Stay(s.b, push)
    else Advance(s.b, s.W() + Bit(push && e.newW), Counts(s.b.sync, s.r),
                 s.b.sync <= s.r + Bit(pop), ReplyB(s.b, e.b.req), pop, push)
  }

  /** The words accepted at an event. */
  function Accepted(s: Fifo, e: Event): seq<Word> {
    if PushFires(s, e.a) then [e.a.req.word] else []
  }

  function Next(s: Fifo, e: Event): Fifo {
    Fifo(s.cap, s.pushed + Accepted(s, e), s.r + Bit(PopFires(s, e.b)), NextA(s, e), NextB(s, e))
  }

  function Run(s: Fifo, events: seq<Event>): Fifo
    decreases |events|
  {
    if events == [] then s else Run(Next(s, events[0]), events[1..])
  }

  lemma {:induction false} RunAppend(s: Fifo, events: seq<Event>, e: Event)
    ensures Run(s, events + [e]) == Next(Run(s, events), e)
    decreases |events|
  {
    if events != [] {
      RunAppend(Next(s, events[0]), events[1..], e);
      assert (events + [e])[1..] == events[1..] + [e];
    } else {
      assert Run(s, [e]) == Run(Next(s, e), []);
    }
  }

  // ---------------------------------------------------------------------------
  // The invariant
  // ---------------------------------------------------------------------------

  predicate Ordered(c: Counts, cap: nat) {
    c.r <= c.w <= c.r + cap
  }

  /** The write side: its view of the read count lags behind, so it never sees too much space. */
  predicate InvA(a: Domain, w: nat, r: nat, cap: nat) {
    && a.word.r <= a.level.r <= a.snap.r <= a.sync <= a.meta <= r <= w <= a.snap.r + cap
    && Ordered(a.snap, cap) && Ordered(a.level, cap) && Ordered(a.word, cap)
    && a.snap.w + Bit(a.fired1) == w && a.level.w + Bit(a.fired2) == a.snap.w
    && a.word.w + Bit(a.fired3) == a.level.w
    && (a.guard <==> w >= a.snap.r + cap)
    && (a.settled >= 1 ==> a.meta == r) && (a.settled >= 2 ==> a.sync == r) && (a.settled >= 3 ==> a.snap.r == r)
  }

  /** The read side: its view of the write count lags behind, so it never sees a word too many. */
  predicate InvB(b: Domain, w: nat, r: nat, cap: nat) {
    && b.word.w <= b.level.w <= b.snap.w <= b.sync <= b.meta <= w && r <= b.snap.w
    && Ordered(b.snap, cap) && Ordered(b.level, cap) && Ordered(b.word, cap)
    && b.snap.r + Bit(b.fired1) == r && b.level.r + Bit(b.fired2) == b.snap.r
    && b.word.r + Bit(b.fired3) == b.level.r
    && (b.guard <==> b.snap.w == r)
    && (b.settled >= 1 ==> b.meta == w) && (b.settled >= 2 ==> b.sync == w) && (b.settled >= 3 ==> b.snap.w == w)
  }

  predicate Inv(s: Fifo) {
    s.cap > 0 && InvA(s.a, s.W(), s.r, s.cap) && InvB(s.b, s.W(), s.r, s.cap)
  }

  /** What one event does to the two counts. */
  lemma NextCounts(s: Fifo, e: Event)
    ensures Next(s, e).W() == s.W() + Bit(PushFires(s, e.a)) && Next(s, e).r == s.r + Bit(PopFires(s, e.b))
  {}

  lemma NextInvA(s: Fifo, e: Event)
    requires Inv(s)
    ensures InvA(NextA(s, e), Next(s, e).W(), Next(s, e).r, s.cap)
  {
    hide Next;
    NextCounts(s, e);
  }

  lemma NextInvB(s: Fifo, e: Event)
    requires Inv(s)
    ensures InvB(NextB(s, e), Next(s, e).W(), Next(s, e).r, s.cap)
  {
    hide Next;
    NextCounts(s, e);
  }

  /** Every event keeps the invariant, simultaneous edges and late samples included. */
  lemma NextInv(s: Fifo, e: Event)
    requires Inv(s)
    ensures Inv(Next(s, e))
  {
    hide InvA, InvB, NextA, NextB;
    NextInvA(s, e);
    NextInvB(s, e);
  }

  lemma {:induction false} RunInv(s: Fifo, events: seq<Event>)
    requires Inv(s)
    ensures Inv(Run(s, events)) && Run(s, events).cap == s.cap
    ensures s.pushed <= Run(s, events).pushed && s.r <= Run(s, events).r
    decreases |events|
  {
    hide Inv;
    if events != [] {
      NextInv(s, events[0]);
      RunInv(Next(s, events[0]), events[1..]);
    }
  }

  // ---------------------------------------------------------------------------
  // What the status registers promise
  // ---------------------------------------------------------------------------

  /** The writable and readable counts that a status word reports. */
  function Writable(c: Counts, cap: nat): int { cap - (c.w - c.r) }
  function Readable(c: Counts): int { c.w - c.r }

  function LastThree(d: Domain): nat { Bit(d.fired1) + Bit(d.fired2) + Bit(d.fired3) }

  /**
   In every reachable state the FIFO holds at most cap words, port A's status overstates the free
   space by no more than the pushes of the last three edges, and port B's status overstates the
   readable words by no more than the pops of the last three.
   */
  lemma ReachableSafe(cap: nat, events: seq<Event>)
    requires cap > 0
    ensures var s := Run(Reset(cap), events);
            && 0 <= s.W() - s.r <= cap
            && 0 <= Writable(s.a.word, cap) <= cap - (s.W() - s.r) + LastThree(s.a)
            && 0 <= Readable(s.b.word) <= s.W() - s.r + LastThree(s.b)
  {
    RunInv(Reset(cap), events);
  }

  // ---------------------------------------------------------------------------
  // Flag progress
  // ---------------------------------------------------------------------------

  function EdgesA(events: seq<Event>): nat {
    if events == [] then 0 else Bit(events[0].a.Rises?) + EdgesA(events[1..])
  }

  function EdgesB(events: seq<Event>): nat {
    if events == [] then 0 else Bit(events[0].b.Rises?) + EdgesB(events[1..])
  }

  lemma {:induction false} SettlesA(s: Fifo, events: seq<Event>)
    requires Inv(s) && Run(s, events).r == s.r
    ensures Run(s, events).a.settled >= s.a.settled + EdgesA(events)
    decreases |events|
  {
    if events != [] {
      var t := Next(s, events[0]);
      NextInv(s, events[0]);
      RunInv(t, events[1..]);
      SettlesA(t, events[1..]);
    }
  }

  lemma {:induction false} SettlesB(s: Fifo, events: seq<Event>)
    requires Inv(s) && Run(s, events).W() == s.W()
    ensures Run(s, events).b.settled >= s.b.settled + EdgesB(events)
    decreases |events|
  {
    if events != [] {
      var t := Next(s, events[0]);
      NextInv(s, events[0]);
      RunInv(t, events[1..]);
      SettlesB(t, events[1..]);
    }
  }

  /**
   Three edges of port A during which nothing is popped make the full flag exact. Pushes may go on
   meanwhile.
   */
  lemma FullFlagProgress(cap: nat, before: seq<Event>, events: seq<Event>)
    requires cap > 0 && EdgesA(events) >= 3
    requires Run(Run(Reset(cap), before), events).r == Run(Reset(cap), before).r
    ensures var s := Run(Run(Reset(cap), before), events);
            s.a.guard <==> s.W() - s.r == cap
  {
    RunInv(Reset(cap), before);
    RunInv(Run(Reset(cap), before), events);
    SettlesA(Run(Reset(cap), before), events);
  }

  /** Three edges of port B during which nothing is pushed make the empty flag exact. */
  lemma EmptyFlagProgress(cap: nat, before: seq<Event>, events: seq<Event>)
    requires cap > 0 && EdgesB(events) >= 3
    requires Run(Run(Reset(cap), before), events).W() == Run(Reset(cap), before).W()
    ensures var s := Run(Run(Reset(cap), before), events);
            s.b.guard <==> s.W() == s.r
  {
    RunInv(Reset(cap), before);
    RunInv(Run(Reset(cap), before), events);
    SettlesB(Run(Reset(cap), before), events);
  }
}
