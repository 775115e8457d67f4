/**
 Why a status word read at the right moment is a promise. A count read from the status register
 is a credit: as long as the last transfer is at least three edges old when the word is sampled,
 that many transfers will be accepted, whatever the other side does meanwhile.
 */
module Credit {

  import opened Words
  import opened FifoModel
  import opened FifoRefinement
  import FifoStatus

  /** What the platform asks of its port at an edge. */
  datatype Kind = Transfer | Status | Other

  function KindA(req: RequestA): Kind {
    match req case Push(_) => Transfer case StatusA => Status case _ => Other
  }

  function KindB(req: RequestB): Kind {
    match req case Pop => Transfer case StatusB => Status case _ => Other
  }

  /** The last `quiet` edges of the domain, as far as the status pipeline reaches, moved nothing. */
  predicate Quiet(d: Domain, quiet: nat) {
    && (quiet >= 1 ==> !d.fired1)
    && (quiet >= 2 ==> !d.fired1 && !d.fired2)
    && (quiet >= 3 ==> !d.fired1 && !d.fired2 && !d.fired3)
  }

  /** The next `credit` pushes will find the full flag clear. */
  predicate MayPush(s: Fifo, credit: nat) {
    s.W() + credit <= s.a.snap.r + s.cap
  }

  /** The next `credit` pops will find the empty flag clear. */
  predicate MayPop(s: Fifo, credit: nat) {
    s.r + credit <= s.b.snap.w
  }

  /** The credit after an edge; a status word counts only when the pipeline is quiet. */
  function CreditNext(kind: Kind, credit: nat, quiet: nat, reported: nat): nat {
    match kind
    case Transfer => if credit > 0 then credit - 1 else 0
    case Status => if quiet >= 3 then reported else credit
    case Other => credit
  }

  function QuietNext(kind: Kind, quiet: nat): nat {
    if kind.Transfer? then 0 else quiet + 1
  }

  /** Whether an edge samples a trustworthy status word that reports nothing to move. */
  function Refusal(kind: Kind, quiet: nat, reported: nat): nat {
    if kind.Status? && quiet >= 3 && reported == 0 then 1 else 0
  }

  function Free(s: Fifo): nat {
    if Writable(s.a.word, s.cap) >= 0 then Writable(s.a.word, s.cap) else 0
  }

  function Present(s: Fifo): nat { Level(s.b.word) }

  lemma PushCredit(s: Fifo, e: Event, credit: nat, quiet: nat)
    requires Inv(s) && e.a.Rises? && MayPush(s, credit) && Quiet(s.a, quiet)
    ensures MayPush(Next(s, e), CreditNext(KindA(e.a.req), credit, quiet, Free(s)))
    ensures Quiet(Next(s, e).a, QuietNext(KindA(e.a.req), quiet))
    ensures e.a.req.Push? && credit > 0 ==> PushFires(s, e.a)
  {
    NextCounts(s, e);
  }

  lemma PopCredit(s: Fifo, e: Event, credit: nat, quiet: nat)
    requires Inv(s) && e.b.Rises? && MayPop(s, credit) && Quiet(s.b, quiet)
    ensures MayPop(Next(s, e), CreditNext(KindB(e.b.req), credit, quiet, Present(s)))
    ensures Quiet(Next(s, e).b, QuietNext(KindB(e.b.req), quiet))
    ensures e.b.req.Pop? && credit > 0 ==> PopFires(s, e.b)
  {
    NextCounts(s, e);
  }

  /** The platform reads the credit out of the status word. */
  lemma StatusReports(aw: nat, n: nat, s: Fifo)
    requires aw > 0 && Capacity(aw) <= 4095 && 4 <= n && Inv(s) && s.cap == Capacity(aw)
    ensures FifoStatus.Wcount(FromWord(ToWord(n, StatusOf(aw, s.a.word)))) == Free(s)
    ensures FifoStatus.Rcount(FromWord(ToWord(n, StatusOf(aw, s.b.word)))) == Present(s)
    ensures FifoStatus.Empty(FromWord(ToWord(n, StatusOf(aw, s.b.word)))) <==> Present(s) == 0
  {
    hide FifoStatus.StatusWord, FifoStatus.Empty, FifoStatus.Full, FifoStatus.Rcount, FifoStatus.Wcount;
    hide ToWord, FromWord;
    Sizes(aw);
    FifoStatus.StatusDecodes(Capacity(aw), Level(s.a.word));
    FifoStatus.StatusDecodes(Capacity(aw), Level(s.b.word));
    FourBytes(n);
    FromToWord(n, StatusOf(aw, s.a.word));
    FromToWord(n, StatusOf(aw, s.b.word));
  }

  /** A word is pushed, seen by the other side, popped, and two edges go by. */
  function NoSlackRun(word: Word): (events: seq<Event>)
    ensures |events| == 9
  {
    var idle := Event(Rises(IdleA), Rises(IdleB), false, false);
    [Event(Rises(Push(word)), Rises(IdleB), false, false), idle, idle, idle, idle, idle,
     Event(Rises(IdleA), Rises(Pop), false, false), idle, idle]
  }

  /** Port B as the run above leaves it, step by step. */
  function NoSlackPortB(i: nat): Domain
    requires i <= 9
  {
    var zero, one, gone := Counts(0, 0), Counts(1, 0), Counts(1, 1);
    if i == 0 then ResetDomain(true)
    else if i == 1 then Domain(0, 0, zero, zero, zero, true, NoReply, false, false, false, 0)
    else if i == 2 then Domain(1, 0, zero, zero, zero, true, NoReply, false, false, false, 1)
    else if i == 3 then Domain(1, 1, zero, zero, zero, true, NoReply, false, false, false, 2)
    else if i == 4 then Domain(1, 1, one, zero, zero, false, NoReply, false, false, false, 3)
    else if i == 5 then Domain(1, 1, one, one, zero, false, NoReply, false, false, false, 4)
    else if i == 6 then Domain(1, 1, one, one, one, false, NoReply, false, false, false, 5)
    else if i == 7 then Domain(1, 1, one, one, one, true, NoReply, true, false, false, 6)
    else if i == 8 then Domain(1, 1, gone, one, one, true, NoReply, false, true, false, 7)
    else Domain(1, 1, gone, gone, one, true, NoReply, false, false, true, 8)
  }

  lemma NoSlackStep(word: Word, s: Fifo, i: nat)
    requires i < 9 && s.cap > 0 && s.b == NoSlackPortB(i)
    requires |s.pushed| == (if i == 0 then 0 else 1) && s.r == (if i < 7 then 0 else 1)
    requires i == 0 ==> !s.a.guard
    ensures var t := Next(s, NoSlackRun(word)[i]);
            && t.cap == s.cap && t.b == NoSlackPortB(i + 1) && |t.pushed| == 1 && t.r == (if i + 1 < 7 then 0 else 1)
  {
    hide NextA;
    NextCounts(s, NoSlackRun(word)[i]);
  }

  lemma {:induction false} NoSlackSteps(word: Word, s: Fifo, i: nat)
    requires i <= 9 && s.cap > 0 && s.b == NoSlackPortB(i)
    requires |s.pushed| == (if i == 0 then 0 else 1) && s.r == (if i < 7 then 0 else 1)
    requires i == 0 ==> !s.a.guard
    ensures var t := Run(s, NoSlackRun(word)[i..]);
            && t.b == NoSlackPortB(9) && |t.pushed| == 1 && t.r == 1
    decreases 9 - i
  {
    hide Next, NoSlackPortB;
    if i == 9 {
      assert NoSlackRun(word)[9..] == [];
    } else {
      NoSlackStep(word, s, i);
      assert NoSlackRun(word)[i..][1..] == NoSlackRun(word)[i + 1..];
      NoSlackSteps(word, Next(s, NoSlackRun(word)[i]), i + 1);
    }
  }

  /**
   Three edges between a pop and the sampling of a status word are not one too many, for a FIFO of
   any capacity: after two, the status word may still report a word that is gone.
   */
  lemma NoSlack(cap: nat, word: Word)
    requires cap > 0
    ensures var s := Run(Reset(cap), NoSlackRun(word));
            Quiet(s.b, 2) && Present(s) == 1 && s.W() == s.r
  {
    hide Run, NoSlackRun;
    NoSlackSteps(word, Reset(cap), 0);
    assert NoSlackRun(word)[0..] == NoSlackRun(word);
  }

  /**
   What three edges prevent: the status word sampled after two promises a word, but as long as
   nothing more is pushed the pop made on its word finds the empty flag set and is lost.
   */
  lemma NoSlackLoss(cap: nat, word: Word, events: seq<Event>)
    requires cap > 0
    requires var sampled := Next(Run(Reset(cap), NoSlackRun(word)), Event(Rises(IdleA), Rises(StatusB), false, false));
             Run(sampled, events).W() == sampled.W()
    ensures var sampled := Next(Run(Reset(cap), NoSlackRun(word)), Event(Rises(IdleA), Rises(StatusB), false, false));
            && sampled.b.reply.StatusReply? && Level(sampled.b.reply.counts) == 1
            && !PopFires(Run(sampled, events), Rises(Pop))
  {
    hide Run, NoSlackRun;
    NoSlack(cap, word);
    var s := Run(Reset(cap), NoSlackRun(word));
    var e := Event(Rises(IdleA), Rises(StatusB), false, false);
    RunInv(Reset(cap), NoSlackRun(word));
    NextInv(s, e);
    NextCounts(s, e);
    RunInv(Next(s, e), events);
  }

  lemma FourBytes(n: nat)
    requires 4 <= n
    ensures Range(n) >= 0x1_0000_0000
  {
    assert Range(1) == 256 && Range(2) == 65536 && Range(3) == 0x100_0000 && Range(4) == 0x1_0000_0000;
    RangeGrows(4, n);
  }
}
