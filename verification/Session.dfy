/**
 The platform program's main loop on both windows at once, and a whole session with the echo
 firmware. Each window is a machine of its own that shares only the clock with the other: while the
 platform works on one, the other goes through as many cycles in which the platform leaves it alone.
 */
module Session {

  import opened Words
  import opened Frames
  import opened FifoRefinement
  import opened History
  import opened Window
  import opened Platform
  import opened Echo
  import AsyncFifo

  /** What the loop finds on its standard input: nothing, or what one read returns. */
  datatype Poll = NoInput | Input(bytes: seq<Byte>) {
    /** End of file, an error, or the letter q and a newline. */
    predicate Quits() {
      Input? && (bytes == [] || (|bytes| == 2 && bytes[0] == 'q' as nat))
    }
  }

  /** A session is given no more than the program's read asks for: 1023 bytes at a time. */
  predicate Readable(script: seq<Poll>) {
    forall i :: 0 <= i < |script| && script[i].Input? ==> |script[i].bytes| < 1024
  }

  /** The lines sent: those read before the first poll that ends the session. */
  function Inputs(script: seq<Poll>): seq<seq<Byte>> {
    if script == [] || script[0].Quits() then []
    else (if script[0].Input? then [script[0].bytes] else []) + Inputs(script[1..])
  }

  /** How many polls before the end find no input. */
  function Silences(script: seq<Poll>): nat {
    if script == [] || script[0].Quits() then 0
    else (if script[0].Input? then 0 else 1) + Silences(script[1..])
  }

  /** Poll k is the first whose input is empty, or two bytes with a q in front; or there is none and k is the end. */
  predicate EndsAt(script: seq<Poll>, k: nat) {
    && k <= |script|
    && (forall i :: 0 <= i < k && script[i].Input? ==> Continues(script[i].bytes))
    && (k < |script| ==> script[k].Input? && !Continues(script[k].bytes))
  }

  predicate Continues(bytes: seq<Byte>) {
    |bytes| == 1 || |bytes| > 2 || (|bytes| == 2 && bytes[0] != 0x71)
  }

  /** The inputs of some polls, in order, and how many of them have none. */
  function Typed(polls: seq<Poll>): (lines: seq<seq<Byte>>)
    ensures |lines| <= |polls|
  {
    if polls == [] then []
    else Typed(polls[..|polls| - 1]) + if polls[|polls| - 1].Input? then [polls[|polls| - 1].bytes] else []
  }

  function Untyped(polls: seq<Poll>): nat { |polls| - |Typed(polls)| }

  lemma {:induction false} TypedFirst(p: Poll, polls: seq<Poll>)
    ensures Typed([p] + polls) == (if p.Input? then [p.bytes] else []) + Typed(polls)
  {
    if polls == [] {
      assert Typed([p]) == Typed([]) + if p.Input? then [p.bytes] else [];
      assert [p] + polls == [p];
    } else {
      var n := |polls|;
      assert ([p] + polls)[..n] == [p] + polls[..n - 1] && ([p] + polls)[n] == polls[n - 1];
      TypedFirst(p, polls[..n - 1]);
    }
  }

  /** There is always exactly one such poll. */
  function EndOf(script: seq<Poll>): (k: nat)
    ensures EndsAt(script, k) && forall j :: EndsAt(script, j) ==> j == k
  {
    if script == [] || (script[0].Input? && !Continues(script[0].bytes)) then 0 else 1 + EndOf(script[1..])
  }

  /** The lines sent are the inputs before it, in order; the silences are the polls before it without input. */
  lemma {:induction false} SentBefore(script: seq<Poll>, k: nat)
    requires EndsAt(script, k)
    ensures Inputs(script) == Typed(script[..k]) && Silences(script) == Untyped(script[..k])
    ensures forall i :: 0 <= i < |Inputs(script)| ==> Continues(Inputs(script)[i])
  {
    if k > 0 {
      assert !script[0].Quits();
      SentBefore(script[1..], k - 1);
      TypedFirst(script[0], script[1..][..k - 1]);
      assert [script[0]] + script[1..][..k - 1] == script[..k];
    } else if script != [] {
      assert script[0].Quits();
    }
  }

  /** The two windows between two accesses: both idle, at the same time, and sharing nothing. */
  ghost predicate Both(ptc: Window, ctp: Window, pbase: nat, cbase: nat, buf: array<Word>)
    reads ptc, ptc.bridge, ptc.fifo, ptc.fifo.ram, ptc.fifo.ram.mem
    reads ctp, ctp.bridge, ctp.fifo, ctp.fifo.ram, ctp.fifo.ram.mem
  {
    && Apart(ptc, ctp, buf)
    && Ready(ptc, pbase) && Ready(ctp, cbase) && ptc.t == ctp.t
  }

  /** A platform-to-core and a core-to-platform window of one word size, and the platform's buffer. */
  ghost predicate Apart(ptc: Window, ctp: Window, buf: array<Word>) {
    && ptc.ptc && !ctp.ptc && ptc.fifo.n == ctp.fifo.n && (ptc.fifo.n == 4 || ptc.fifo.n == 8)
    && ptc != ctp && ptc.bridge != ctp.bridge && ptc.fifo != ctp.fifo && ptc.fifo.ram != ctp.fifo.ram
    && ptc.fifo.ram.mem != ctp.fifo.ram.mem && buf != ptc.fifo.ram.mem && buf != ctp.fifo.ram.mem
    && ptc.fifo.n * buf.Length == 1024
  }

  /** The status words of both windows that reported nothing to move. */
  ghost function Refused(ptc: Window, ctp: Window): nat
    reads ptc, ctp
  {
    ptc.refused + ctp.refused
  }

  /** How the main loop ends: at the end of its script, or cut in the middle of a line or of a message. */
  datatype Outcome = Complete | SendCut | ReceiveCut

  /** memset of the buffer. */
  method Clear(n: WordBytes, buf: array<Word>)
    modifies buf
    ensures forall k :: 0 <= k < buf.Length ==> buf[k] == ToWord(n, 0)
  {
    forall k | 0 <= k < buf.Length {
      buf[k] := ToWord(n, 0);
    }
  }

  /** A line of input goes out; meanwhile the other window's cycles go by. */
  method SendTurn(ptc: Window, ctp: Window, pbase: nat, cbase: nat, buf: array<Word>, input: seq<Byte>, polls: nat)
    returns (complete: bool, left: nat)
    requires Both(ptc, ctp, pbase, cbase, buf) && |input| < 1024
    requires forall k :: 0 <= k < buf.Length ==> |buf[k]| == ptc.fifo.n
    modifies buf, ptc, ptc.bridge, ptc.fifo, ptc.fifo.ram, ptc.fifo.ram.mem
    modifies ctp, ctp.bridge, ctp.fifo, ctp.fifo.ram, ctp.fifo.ram.mem
    ensures Both(ptc, ctp, pbase, cbase, buf)
    ensures forall k :: 0 <= k < buf.Length ==> |buf[k]| == ptc.fifo.n
    ensures var frame := EncodeFrame(ptc.fifo.n, input + [0]);
            && old(ptc.Stream()) <= ptc.Stream() <= old(ptc.Stream()) + frame
            && (complete ==> ptc.Stream() == old(ptc.Stream()) + frame)
    ensures ctp.Stream() == old(ctp.Stream()) && ctp.refused == old(ctp.refused)
    ensures Waited(old(ptc.refused), ptc.refused, old(ptc.t), ptc.t, polls, left, !complete)
  {
    hide EncodeFrame, Range, Ready, ToWord, Window.Stream;
    BufferFits(ptc.fifo.n);
    complete, left := SendLine(ptc, pbase, buf, input, polls);
    Clear(ptc.fifo.n, buf);
    Pause(ctp, cbase, ptc.t - ctp.t);
  }

  lemma NothingDecoded(n: WordBytes, maxWords: nat)
    ensures Uniform(n, []) && Whole(n, []) && Decode(n, maxWords, []) == []
  {}

  /** The words popped for one frame, alone. */
  lemma FrameAlone(win: Window, n: WordBytes, maxWords: nat, before: seq<Word>, r: ReadResult, frame: seq<Word>,
                   buf: seq<Word>)
    requires win.Valid() && win.fifo.n == n && win.Stream() == before + frame
    requires Reports(n, maxWords, r, frame, buf)
    ensures Uniform(n, frame) && (r.Frame? ==> Whole(n, frame))
    ensures r.Frame? ==> r.size < Range(n) && (r.ok ==> PayloadWords(n, r.size) <= |buf|)
    ensures Decode(n, maxWords, frame) == if r.Cut? then [] else [Shown(n, maxWords, r.ok, r.size, buf)]
  {
    hide *;
    NothingDecoded(n, maxWords);
    assert before + [] == before && [] + frame == frame;
    FrameDecoded(win, n, maxWords, before, [], r, frame, buf);
  }

  /** One message into the cleared buffer, and what is shown of it. */
  method NextMessage(win: Window, base: nat, buf: array<Word>, polls: nat)
    returns (r: ReadResult, message: Message, ghost frame: seq<Word>, left: nat)
    requires Ready(win, base) && !win.ptc && (win.fifo.n == 4 || win.fifo.n == 8) && buf != win.fifo.ram.mem
    modifies buf, win, win.bridge, win.fifo, win.fifo.ram, win.fifo.ram.mem
    ensures Ready(win, base) && forall k :: 0 <= k < buf.Length ==> |buf[k]| == win.fifo.n
    ensures win.Stream() == old(win.Stream()) + frame && Uniform(win.fifo.n, frame)
    ensures r.Frame? ==> Whole(win.fifo.n, frame)
    ensures Decode(win.fifo.n, buf.Length, frame) == if r.Frame? then [message] else []
    ensures Waited(old(win.refused), win.refused, old(win.t), win.t, polls, left, r.Cut?)
  {
    hide *;
    var n := win.fifo.n;
    Clear(n, buf);
    ghost var before := win.Stream();
    r, frame, left := ReadCtpFramedMessage(win, base, buf, polls);
    ReadyValid(win, base);
    FrameAlone(win, n, buf.Length, before, r, frame, buf[..]);
    message := if r.Frame? then Shown(n, buf.Length, r.ok, r.size, buf[..]) else TooLarge;
    Clear(n, buf);
  }

  /** Without input: read a message if a word is there, else idle. */
  method ReceiveTurn(ptc: Window, ctp: Window, pbase: nat, cbase: nat, buf: array<Word>, polls: nat)
    returns (ready: bool, r: ReadResult, message: Message, ghost frame: seq<Word>, left: nat)
    requires Both(ptc, ctp, pbase, cbase, buf)
    requires forall k :: 0 <= k < buf.Length ==> |buf[k]| == ptc.fifo.n
    modifies buf, ptc, ptc.bridge, ptc.fifo, ptc.fifo.ram, ptc.fifo.ram.mem
    modifies ctp, ctp.bridge, ctp.fifo, ctp.fifo.ram, ctp.fifo.ram.mem
    ensures Both(ptc, ctp, pbase, cbase, buf)
    ensures forall k :: 0 <= k < buf.Length ==> |buf[k]| == ptc.fifo.n
    ensures ptc.Stream() == old(ptc.Stream()) && ptc.refused == old(ptc.refused)
    ensures ctp.Stream() == old(ctp.Stream()) + frame && Uniform(ptc.fifo.n, frame)
    ensures !(ready && r.Cut?) ==> Whole(ptc.fifo.n, frame)
    ensures Decode(ptc.fifo.n, buf.Length, frame) == if ready && r.Frame? then [message] else []
    ensures var idle := if ready then 0 else 1;
            Waited(old(ctp.refused) + idle, ctp.refused, old(ptc.t) + 50 * idle, ptc.t, polls, left, ready && r.Cut?)
  {
    hide Decode, Ready, Uniform, Whole, Window.Stream;
    ready := CtpFifoReady(ctp, cbase);
    if ready {
      r, message, frame, left := NextMessage(ctp, cbase, buf, polls);
    } else {
      IdleStep(ctp, cbase);
      r, message, frame, left := Cut, TooLarge, [], polls;
      NothingDecoded(ptc.fifo.n, buf.Length);
    }
    Pause(ptc, pbase, ctp.t - ptc.t);
  }

  /** The next poll of a script. */
  lemma NextPoll(script: seq<Poll>, i: nat)
    requires i < |script|
    ensures script[i].Quits() ==> Inputs(script[i..]) == [] && Silences(script[i..]) == 0
    ensures !script[i].Quits() && script[i].Input? ==>
      && Inputs(script[i..]) == [script[i].bytes] + Inputs(script[i + 1..])
      && Silences(script[i..]) == Silences(script[i + 1..])
    ensures script[i].NoInput? ==>
      Inputs(script[i..]) == Inputs(script[i + 1..]) && Silences(script[i..]) == 1 + Silences(script[i + 1..])
  {
    assert script[i..][0] == script[i] && script[i..][1..] == script[i + 1..];
  }

  /** Sending one more line of those to be sent. */
  lemma NextLine(n: WordBytes, before: seq<Word>, sent: seq<seq<Byte>>, line: seq<Byte>, rest: seq<seq<Byte>>,
                 stream: seq<Word>)
    requires stream <= before + EncodeAll(n, Lines(sent)) + EncodeFrame(n, line + [0])
    ensures before + EncodeAll(n, Lines(sent)) + EncodeFrame(n, line + [0])
         == before + EncodeAll(n, Lines(sent + [line]))
    ensures stream <= before + EncodeAll(n, Lines(sent + ([line] + rest)))
  {
    hide EncodeAll, EncodeFrame;
    var all := sent + ([line] + rest);
    assert Lines(sent + [line]) == Lines(sent) + [line + [0]];
    EncodeAppend(n, Lines(sent), line + [0]);
    assert Lines(sent + [line]) <= Lines(all);
    EncodePrefix(n, Lines(sent + [line]), Lines(all));
    var a, b := EncodeAll(n, Lines(sent)), EncodeFrame(n, line + [0]);
    assert before + a + b == before + (a + b);
  }

  lemma NothingSent(n: WordBytes)
    ensures EncodeAll(n, Lines([])) == [] && Inputs([]) == [] && Silences([]) == 0
  {}

  lemma SentPrefix(n: WordBytes, before: seq<Word>, sent: seq<seq<Byte>>, rest: seq<seq<Byte>>)
    ensures before + EncodeAll(n, Lines(sent)) <= before + EncodeAll(n, Lines(sent + rest))
  {
    hide EncodeAll;
    EncodePrefix(n, Lines(sent), Lines(sent + rest));
  }

  /** One more frame after complete ones. */
  lemma NextShown(n: WordBytes, maxWords: nat, taken: seq<Word>, frame: seq<Word>)
    requires Uniform(n, taken) && Uniform(n, frame) && Whole(n, taken)
    ensures Uniform(n, taken + frame) && (Whole(n, frame) ==> Whole(n, taken + frame))
    ensures Decode(n, maxWords, taken + frame) == Decode(n, maxWords, taken) + Decode(n, maxWords, frame)
  {
    hide *;
    UniformConcat(n, taken, frame);
    DecodeWhole(n, maxWords, taken, frame);
    if Whole(n, frame) {
      WholeConcat(n, taken, frame);
    }
  }

  /**
   The main loop over any sequence of polls. Lines go out in order, messages are shown in order, and
   neither direction disturbs the other; the run is cut in the middle of a line or a message only when
   the FIFO it is waiting for has had nothing to move for the last poll allowed. Every poll without
   input shows a message or finds none there.
   */
  method MainLoop(ptc: Window, ctp: Window, pbase: nat, cbase: nat, buf: array<Word>, script: seq<Poll>, polls: nat)
    returns (outcome: Outcome, shown: seq<Message>, idle: nat, left: nat, ghost taken: seq<Word>)
    requires Both(ptc, ctp, pbase, cbase, buf) && Readable(script)
    requires forall k :: 0 <= k < buf.Length ==> |buf[k]| == ptc.fifo.n
    modifies buf, ptc, ptc.bridge, ptc.fifo, ptc.fifo.ram, ptc.fifo.ram.mem
    modifies ctp, ctp.bridge, ctp.fifo, ctp.fifo.ram, ctp.fifo.ram.mem
    ensures Both(ptc, ctp, pbase, cbase, buf)
    ensures old(ptc.Stream()) <= ptc.Stream() <= old(ptc.Stream()) + EncodeAll(ptc.fifo.n, Lines(Inputs(script)))
    ensures outcome.Complete? ==>
      ptc.Stream() == old(ptc.Stream()) + EncodeAll(ptc.fifo.n, Lines(Inputs(script)))
    ensures ctp.Stream() == old(ctp.Stream()) + taken && Uniform(ctp.fifo.n, taken)
    ensures shown == Decode(ctp.fifo.n, buf.Length, taken)
    ensures |shown| + idle <= Silences(script) && (outcome.Complete? ==> |shown| + idle == Silences(script))
    ensures Inputs(script) == Typed(script[..EndOf(script)]) && Silences(script) == Untyped(script[..EndOf(script)])
    ensures Waited(old(Refused(ptc, ctp)) + idle, Refused(ptc, ctp), old(ptc.t) + 50 * idle, ptc.t, polls, left,
                   !outcome.Complete?)
    ensures outcome.SendCut? ==> ptc.refused > old(ptc.refused)
    ensures outcome.ReceiveCut? ==> ctp.refused > old(ctp.refused) + idle && |shown| + idle < Silences(script)
  {
    hide Continues, Decode, EncodeAll, EncodeFrame, EndOf, EndsAt, Inputs, Lines, Ready, Silences, Typed, Uniform;
    hide Untyped, Whole, Window.Stream;
    SentBefore(script, EndOf(script));
    var n := ptc.fifo.n;
    ghost var before, sent := ptc.Stream(), [];
    outcome, shown, idle, left, taken := Complete, [], 0, polls, [];
    NothingDecoded(n, buf.Length);
    NothingSent(n);
    assert script[0..] == script && script[|script|..] == [];
    for i := 0 to |script|
      invariant Both(ptc, ctp, pbase, cbase, buf) && forall k :: 0 <= k < buf.Length ==> |buf[k]| == n
      invariant Inputs(script) == sent + Inputs(script[i..]) && ptc.Stream() == before + EncodeAll(n, Lines(sent))
      invariant ctp.Stream() == old(ctp.Stream()) + taken && Uniform(n, taken) && Whole(n, taken)
      invariant shown == Decode(n, buf.Length, taken) && |shown| + idle + Silences(script[i..]) == Silences(script)
      invariant Waited(old(Refused(ptc, ctp)) + idle, Refused(ptc, ctp), old(ptc.t) + 50 * idle, ptc.t, polls, left,
                       false)
      invariant ptc.refused >= old(ptc.refused) && ctp.refused >= old(ctp.refused) + idle
    {
      NextPoll(script, i);
      if script[i].Quits() {
        assert sent + [] == sent;
        return;
      }
      if script[i].Input? {
        ghost var input := script[i].bytes;
        var done;
        done, left := SendTurn(ptc, ctp, pbase, cbase, buf, script[i].bytes, left);
        NextLine(n, before, sent, input, Inputs(script[i + 1..]), ptc.Stream());
        if !done {
          outcome := SendCut;
          return;
        }
        assert sent + ([input] + Inputs(script[i + 1..])) == sent + [input] + Inputs(script[i + 1..]);
        sent := sent + [input];
      } else {
        ghost var frame;
        var ready, r, message;
        ready, r, message, frame, left := ReceiveTurn(ptc, ctp, pbase, cbase, buf, left);
        NextShown(n, buf.Length, taken, frame);
        taken := taken + frame;
        if !ready {
          idle := idle + 1;
        } else if r.Cut? {
          SentPrefix(n, before, sent, Inputs(script[i + 1..]));
          outcome := ReceiveCut;
          return;
        } else {
          shown := shown + [message];
        }
      }
    }
    assert sent + [] == sent;
  }

  // ---------------------------------------------------------------------------
  // From reset
  // ---------------------------------------------------------------------------

  lemma {:induction false} InputsReadable(script: seq<Poll>)
    requires Readable(script)
    ensures forall i :: 0 <= i < |Inputs(script)| ==> |Inputs(script)[i]| < 1024
  {
    if script != [] && !script[0].Quits() {
      InputsReadable(script[1..]);
    }
  }

  /** What a session has done by the time it is over or cut. */
  ghost predicate Served(ptc: Window, ctp: Window, n: WordBytes, script: seq<Poll>, polls: nat,
                         outcome: Outcome, shown: seq<Message>, idle: nat, left: nat)
    reads ptc, ptc.fifo, ctp, ctp.fifo
  {
    && ptc.Recorded() && ptc.fifo.popped == Loads(ptc.fifo.aw, n, ptc.around, ptc.log)
    && ctp.Recorded() && ctp.fifo.abs.pushed == Stores(ctp.fifo.aw, n, ctp.around, ctp.log)
    && ptc.fifo.popped <= ptc.fifo.abs.pushed <= EncodeAll(n, Lines(Inputs(script)))
    && (outcome.Complete? ==> ptc.fifo.abs.pushed == EncodeAll(n, Lines(Inputs(script))))
    && ctp.fifo.popped <= ctp.fifo.abs.pushed && Uniform(n, ctp.fifo.popped)
    && shown == Decode(n, 1024 / n, ctp.fifo.popped)
    && |shown| + idle <= Silences(script) && (outcome.Complete? ==> |shown| + idle == Silences(script))
    && ptc.t == ctp.t && Waited(idle, Refused(ptc, ctp), 50 * idle, ptc.t, polls, left, !outcome.Complete?)
    && (outcome.SendCut? ==> ptc.refused > 0)
    && (outcome.ReceiveCut? ==> ctp.refused > idle && |shown| + idle < Silences(script))
  }

  /** A session from reset, for every FIFO size, core behaviour and synchronizer outcome on both links. */
  method Run(aw: nat, n: WordBytes, ptcRegion: nat, ctpRegion: nat, aroundPtc: Surroundings, aroundCtp: Surroundings,
             script: seq<Poll>, polls: nat)
    returns (ptc: Window, ctp: Window, outcome: Outcome, shown: seq<Message>, idle: nat, left: nat)
    requires 3 <= aw <= 12 && AsyncFifo.DataAddr(aw, n) != 0 && Readable(script)
    requires forall k :: CoreWired(aw, n, aroundPtc, k) && CoreWired(aw, n, aroundCtp, k)
    ensures fresh(ptc) && fresh(ctp) && ptc.Valid() && ctp.Valid() && ptc.ptc && !ctp.ptc
    ensures ptc.fifo.aw == ctp.fifo.aw == aw && ptc.fifo.n == ctp.fifo.n == n
    ensures ptc.around == aroundPtc && ctp.around == aroundCtp
    ensures Served(ptc, ctp, n, script, polls, outcome, shown, idle, left)
  {
    hide AsyncFifo.DataAddr, AsyncFifo.Fifo.Valid, Capacity, CoreWired, Decode, EncodeAll, Inputs, Lines, Range, Ready;
    hide Continues, EndOf, EndsAt, Typed, Untyped;
    hide Loads, Silences, Stores, ToWord, Uniform, Window.Recorded, Window.Valid;
    Capacities(aw);
    BufferFits(n);
    var pbase, cbase := 0x1_0000 * ptcRegion, 0x1_0000 * ctpRegion;
    ptc := Start(true, aw, n, ptcRegion, aroundPtc);
    ctp := Start(false, aw, n, ctpRegion, aroundCtp);
    var buf := new Word[1024 / n](_ => ToWord(n, 0));
    assert ptc.Stream() == [] && ctp.Stream() == [];
    ghost var taken;
    outcome, shown, idle, left, taken := MainLoop(ptc, ctp, pbase, cbase, buf, script, polls);
    assert [] + EncodeAll(n, Lines(Inputs(script))) == EncodeAll(n, Lines(Inputs(script)));
    assert ctp.fifo.popped == taken;
    ReadyValid(ptc, pbase);
    ReadyValid(ctp, cbase);
    AsyncFifo.Safe(ptc.fifo);
    AsyncFifo.Safe(ctp.fifo);
    CoreSide(ptc);
    CoreSide(ctp);
  }

  // ---------------------------------------------------------------------------
  // With the echo firmware on the core
  // ---------------------------------------------------------------------------

  lemma {:induction false} LinesFit(n: WordBytes, frames: seq<seq<Byte>>)
    requires forall i :: 0 <= i < |frames| ==> |frames[i]| <= 1024
    ensures Fitting(n, 1024 / n, frames) == frames
    ensures forall i :: 0 <= i < |frames| ==> Sendable(n, frames[i])
  {
    BufferFits(n);
    hide Range, WordsFor;
    if frames != [] {
      LinesFit(n, frames[1..]);
      WordsBelow(n, |frames[0]|, 1024 / n);
    } else {
    }
  }

  /** Lines that go out, through the echo and back, whatever part of them has got how far. */
  lemma EchoedLines(n: WordBytes, inputs: seq<seq<Byte>>, pushed: seq<Word>, incoming: seq<Word>, sent: seq<Word>,
                    popped: seq<Word>)
    requires forall i :: 0 <= i < |inputs| ==> |inputs[i]| < 1024
    requires incoming <= pushed <= EncodeAll(n, Lines(inputs))
    requires Uniform(n, incoming)
    requires popped <= sent <= Answers(n, 1024 / n, incoming)
    ensures Uniform(n, popped)
    ensures var shown := Decode(n, 1024 / n, popped);
            && Payloads(shown) <= Lines(inputs) && forall i :: 0 <= i < |shown| ==> shown[i].Received?
    ensures incoming == EncodeAll(n, Lines(inputs)) && popped == Answers(n, 1024 / n, incoming) ==>
            Payloads(Decode(n, 1024 / n, popped)) == Lines(inputs)
  {
    LinesFit(n, Lines(inputs));
    hide *;
    EndToEnd(n, 1024 / n, Lines(inputs), pushed, incoming, sent, popped);
  }

  lemma LinesDecoded(n: WordBytes, inputs: seq<seq<Byte>>, incoming: seq<Word>)
    requires forall i :: 0 <= i < |inputs| ==> |inputs[i]| < 1024
    requires incoming <= EncodeAll(n, Lines(inputs)) && Uniform(n, incoming)
    ensures |Decode(n, 1024 / n, incoming)| <= |inputs|
  {
    LinesFit(n, Lines(inputs));
    hide *;
    DecodePrefix(n, 1024 / n, Lines(inputs), incoming);
  }

  /**
   The platform program and the echo firmware, from reset. If the firmware's loads and stores are the
   accesses that the core's pins have asked for and been granted, then the messages shown are the
   lines sent, in order and byte for byte, as far as they have come back; and all of them once the
   platform has sent every line, both FIFOs are drained and the echo could go on storing.
   */
  method EchoSession(aw: nat, n: WordBytes, ptcRegion: nat, ctpRegion: nat, aroundPtc: Surroundings,
                     aroundCtp: Surroundings, script: seq<Poll>, polls: nat, link: CoreLink, rounds: nat)
    returns (ptc: Window, ctp: Window, outcome: Outcome, shown: seq<Message>, idle: nat, left: nat)
    requires 3 <= aw <= 12 && AsyncFifo.DataAddr(aw, n) != 0 && Readable(script)
    requires forall k :: CoreWired(aw, n, aroundPtc, k) && CoreWired(aw, n, aroundCtp, k)
    requires link.Valid() && link.n == n && link.taken == 0 && link.sent == [] && link.asked == []
    modifies link`taken, link`looks, link`asked, link`busy, link`sent
    ensures ptc.around == aroundPtc && ctp.around == aroundCtp && ptc.fifo.aw == ctp.fifo.aw == aw
    ensures Served(ptc, ctp, n, script, polls, outcome, shown, idle, left)
    ensures link.incoming == Loads(aw, n, aroundPtc, ptc.log) && link.sent == Stores(aw, n, aroundCtp, ctp.log) ==>
      && Payloads(shown) <= Lines(Inputs(script))
      && (forall i :: 0 <= i < |shown| ==> shown[i].Received?)
      && (&& outcome.Complete? && rounds > |Inputs(script)| && !link.StoresOver()
          && ptc.fifo.popped == ptc.fifo.abs.pushed && ctp.fifo.popped == ctp.fifo.abs.pushed
          ==> Payloads(shown) == Lines(Inputs(script)))
  {
    hide AsyncFifo.DataAddr, CoreWired, Decode, EncodeAll, Inputs, Lines, Payloads, Readable, Silences, Uniform, Waited;
    hide Loads, Stores, Window.Recorded, Window.Valid;
    InputsReadable(script);
    ptc, ctp, outcome, shown, idle, left := Run(aw, n, ptcRegion, ctpRegion, aroundPtc, aroundCtp, script, polls);
    assert BufferWords(n) == 1024 / n;
    EchoLoop(link, rounds);
    if link.incoming == Loads(aw, n, aroundPtc, ptc.log) && link.sent == Stores(aw, n, aroundCtp, ctp.log) {
      ghost var incoming := link.incoming[..link.taken];
      UniformParts(n, link.incoming, link.taken);
      EchoedLines(n, Inputs(script), ptc.fifo.abs.pushed, incoming, link.sent, ctp.fifo.popped);
      LinesDecoded(n, Inputs(script), link.incoming);
      assert link.incoming[..|link.incoming|] == link.incoming;
    }
  }
}
