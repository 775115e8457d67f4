/**
 What has happened to a window so far, as the sequence of its events. Everything that the other
 modules promise about credits, refusals and the core's transfers is a function of this history.
 */
module History {

  import opened Words
  import opened FifoModel
  import opened FifoRefinement
  import opened Credit
  import AsyncFifo

  /** What a run does not control: what the core drives in each cycle, and how the synchronizers settle. */
  datatype Surroundings = Surroundings(
    coreA: nat -> AsyncFifo.PinsA,
    coreB: nat -> AsyncFifo.PinsB,
    lateR: nat -> nat -> bool,
    lateW: nat -> nat -> bool)

  /** The core's pins are well formed in cycle k. */
  predicate CoreWired(aw: nat, n: nat, around: Surroundings, k: nat) {
    && around.coreA(k).addr < Depth(aw) && |around.coreA(k).wdata| == |around.coreA(k).be| == n
    && around.coreB(k).addr < Depth(aw) && |around.coreB(k).wdata| == |around.coreB(k).be| == n
  }

  /** Both clocks rise, and the core's port sees the request that the core's pins carry in cycle k. */
  predicate CoreDrives(ptc: bool, aw: nat, n: nat, around: Surroundings, k: nat, e: Event) {
    && e.a.Rises? && e.b.Rises?
    && (if ptc then e.b.req == AsyncFifo.DecodeB(aw, n, around.coreB(k))
        else e.a.req == AsyncFifo.DecodeA(aw, n, around.coreA(k)))
  }

  /** What the platform asks of its port at an event. */
  function Asked(ptc: bool, e: Event): Kind {
    if ptc then (if e.a.Rises? then KindA(e.a.req) else Other) else if e.b.Rises? then KindB(e.b.req) else Other
  }

  /** The count that a status word shows to the platform. */
  function Shows(ptc: bool, s: Fifo): nat {
    if ptc then Free(s) else Present(s)
  }

  /** What the platform may rely on: promised transfers, cycles without one, and fruitless status words. */
  datatype Notes = Notes(credit: nat, quiet: nat, refused: nat)

  function NextNotes(notes: Notes, kind: Kind, reported: nat): Notes {
    Notes(CreditNext(kind, notes.credit, notes.quiet, reported), QuietNext(kind, notes.quiet),
          notes.refused + Refusal(kind, notes.quiet, reported))
  }

  lemma NotesParts(notes: Notes, kind: Kind, reported: nat)
    ensures var next := NextNotes(notes, kind, reported);
            && next.credit == CreditNext(kind, notes.credit, notes.quiet, reported)
            && next.quiet == QuietNext(kind, notes.quiet)
            && next.refused == notes.refused + Refusal(kind, notes.quiet, reported)
  {}

  function NotesOf(ptc: bool, cap: nat, log: seq<Event>): Notes
    decreases |log|
  {
    if log == [] then Notes(0, 3, 0)
    else
      var k := |log| - 1;
      NextNotes(NotesOf(ptc, cap, log[..k]), Asked(ptc, log[k]), Shows(ptc, Run(Reset(cap), log[..k])))
  }

  /** In every cycle of a history the core did what its pins say. */
  predicate Driven(ptc: bool, aw: nat, n: nat, around: Surroundings, log: seq<Event>) {
    forall k :: 0 <= k < |log| ==> CoreDrives(ptc, aw, n, around, k, log[k])
  }

  /** A history of t cycles in which the core did what its pins say, that leads to the state s. */
  predicate Logged(ptc: bool, aw: nat, n: nat, around: Surroundings, log: seq<Event>, t: nat, s: Fifo, notes: Notes) {
    && |log| == t && s == Run(Reset(Capacity(aw)), log) && notes == NotesOf(ptc, Capacity(aw), log)
    && Driven(ptc, aw, n, around, log)
  }

  lemma NothingLogged(ptc: bool, aw: nat, n: nat, around: Surroundings)
    ensures Logged(ptc, aw, n, around, [], 0, Reset(Capacity(aw)), Notes(0, 3, 0))
  {}

  lemma LoggedNext(ptc: bool, aw: nat, n: nat, around: Surroundings, log: seq<Event>, t: nat, s: Fifo, notes: Notes,
                   e: Event)
    requires Logged(ptc, aw, n, around, log, t, s, notes) && CoreDrives(ptc, aw, n, around, t, e)
    ensures Logged(ptc, aw, n, around, log + [e], t + 1, Next(s, e), NextNotes(notes, Asked(ptc, e), Shows(ptc, s)))
  {
    hide Asked, Capacity, CoreDrives, Next, NextNotes, Run, Shows;
    RunAppend(Reset(Capacity(aw)), log, e);
    assert (log + [e])[..t] == log;
  }

  /** The words that the core's granted loads of the data register have returned. */
  function Loads(aw: nat, n: nat, around: Surroundings, log: seq<Event>): seq<Word>
    decreases |log|
  {
    if log == [] then []
    else
      var k := |log| - 1;
      var s := Run(Reset(Capacity(aw)), log[..k]);
      var granted := AsyncFifo.DecodeB(aw, n, around.coreB(k)).Pop? && !s.b.guard && s.r < s.W();
      Loads(aw, n, around, log[..k]) + if granted then [s.pushed[s.r]] else []
  }

  /** The words that the core's granted stores to the data register have brought. */
  function Stores(aw: nat, n: nat, around: Surroundings, log: seq<Event>): seq<Word>
    decreases |log|
  {
    if log == [] then []
    else
      var k := |log| - 1;
      var s := Run(Reset(Capacity(aw)), log[..k]);
      var granted := AsyncFifo.DecodeA(aw, n, around.coreA(k)).Push? && !s.a.guard;
      Stores(aw, n, around, log[..k]) + if granted then [around.coreA(k).wdata] else []
  }

  /** The last event of a history, and the state it found. */
  lemma LastEvent(ptc: bool, aw: nat, n: nat, around: Surroundings, log: seq<Event>)
    requires log != [] && 0 < Capacity(aw) && Driven(ptc, aw, n, around, log)
    ensures var k := |log| - 1;
            var s := Run(Reset(Capacity(aw)), log[..k]);
            && Driven(ptc, aw, n, around, log[..k]) && CoreDrives(ptc, aw, n, around, k, log[k])
            && Run(Reset(Capacity(aw)), log) == Next(s, log[k]) && Inv(s)
  {
    hide Capacity, CoreDrives, Next, Run;
    var k := |log| - 1;
    RunAppend(Reset(Capacity(aw)), log[..k], log[k]);
    RunInv(Reset(Capacity(aw)), log[..k]);
    assert log[..k] + [log[k]] == log;
  }

  lemma NextPopped(s: Fifo, e: Event)
    requires Inv(s)
    ensures s.r <= s.W() && Next(s, e).r <= Next(s, e).W()
    ensures Next(s, e).pushed[..Next(s, e).r] == s.pushed[..s.r] + if PopFires(s, e.b) then [s.pushed[s.r]] else []
  {
    hide NextA, NextB;
    NextCounts(s, e);
  }

  /** On the platform-to-core link, the core's granted loads have returned exactly the words popped, in order. */
  lemma {:induction false} LoadsArePopped(aw: nat, n: nat, around: Surroundings, log: seq<Event>)
    requires 0 < Capacity(aw) && Driven(true, aw, n, around, log)
    ensures var s := Run(Reset(Capacity(aw)), log);
            s.r <= s.W() && Loads(aw, n, around, log) == s.pushed[..s.r]
    decreases |log|
  {
    hide AsyncFifo.DecodeB, Capacity, Driven, Inv, Next;
    if log != [] {
      var k := |log| - 1;
      var s := Run(Reset(Capacity(aw)), log[..k]);
      LastEvent(true, aw, n, around, log);
      LoadsArePopped(aw, n, around, log[..k]);
      NextPopped(s, log[k]);
      assert PopFires(s, log[k].b) ==> s.r < s.W() by { PopHasWord(s, log[k]); }
    }
  }

  lemma PopHasWord(s: Fifo, e: Event)
    requires Inv(s)
    ensures PopFires(s, e.b) ==> s.r < s.W()
  {}

  /** On the core-to-platform link, the core's granted stores have brought exactly the words pushed, in order. */
  lemma {:induction false} StoresArePushed(aw: nat, n: nat, around: Surroundings, log: seq<Event>)
    requires 0 < Capacity(aw) && Driven(false, aw, n, around, log)
    ensures Stores(aw, n, around, log) == Run(Reset(Capacity(aw)), log).pushed
    decreases |log|
  {
    hide Capacity, Driven, Inv, NextA, NextB;
    if log != [] {
      var k := |log| - 1;
      LastEvent(false, aw, n, around, log);
      StoresArePushed(aw, n, around, log[..k]);
    }
  }
}
