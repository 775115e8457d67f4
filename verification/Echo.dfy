/**
 The echo firmware. The core sees the two FIFOs through memory accesses that stall until they are
 granted, so a load of the data register takes the next word of the stream and a store appends
 one, or the access never completes and the run ends there. A status register always tells some
 level of its FIFO; which one, and with it how transfers are cut into chunks, is arbitrary.
 */
module Echo {

  import opened Words
  import opened Frames
  import FifoStatus

  /** Whose status register a status read goes to. */
  datatype Port = Ptc | Ctp

  /** How many of some status reads reported something to move. */
  function Told(cap: nat, level: nat -> nat, asked: seq<Port>): (told: nat)
    ensures told <= |asked|
  {
    if asked == [] then 0
    else
      var k := |asked| - 1;
      Told(cap, level, asked[..k]) + if (if asked[k].Ptc? then level(k) > 0 else level(k) < cap) then 1 else 0
  }

  /** One more status read. */
  lemma ToldNext(cap: nat, level: nat -> nat, asked: seq<Port>, port: Port)
    ensures Told(cap, level, asked + [port])
         == Told(cap, level, asked)
            + if (if port.Ptc? then level(|asked|) > 0 else level(|asked|) < cap) then 1 else 0
  {
    assert (asked + [port])[..|asked|] == asked;
  }

  /** All status reads since went to one port. */
  predicate OnlyAsked(asked0: seq<Port>, asked: seq<Port>, port: Port) {
    asked0 <= asked && forall k :: |asked0| <= k < |asked| ==> asked[k] == port
  }

  lemma AskedNone(a: seq<Port>, port: Port)
    ensures OnlyAsked(a, a, port)
  {}

  lemma AskedMore(a: seq<Port>, b: seq<Port>, c: seq<Port>, port: Port)
    requires OnlyAsked(a, b, port) && OnlyAsked(b, c, port)
    ensures OnlyAsked(a, c, port)
  {}

  class CoreLink {
    const n: WordBytes
    const incoming: seq<Word>             // every word that the core's loads are ever granted
    const room: nat                       // how many stores are ever granted
    const cap: nat                        // the capacity of each FIFO
    const level: nat -> nat               // the level that the k-th status read reports
    const patience: nat                   // how many status reads the run lasts
    var taken: nat
    var sent: seq<Word>
    var looks: nat

    ghost var asked: seq<Port>            // the status reads so far
    ghost var busy: nat                   // how many of them reported something to move

    constructor (n: WordBytes, incoming: seq<Word>, room: nat, cap: nat, level: nat -> nat, patience: nat)
      requires Uniform(n, incoming) && 0 < cap <= 4095 && forall k :: level(k) <= cap
      ensures Valid() && taken == 0 && sent == [] && asked == []
      ensures this.n == n && this.incoming == incoming && this.room == room && this.patience == patience
    {
      this.n, this.incoming, this.room := n, incoming, room;
      this.cap, this.level, this.patience := cap, level, patience;
      taken, sent, looks, asked, busy := 0, [], 0, [], 0;
    }

    ghost predicate Valid()
      reads this
    {
      && Uniform(n, incoming) && taken <= |incoming| && looks <= patience
      && 0 < cap <= 4095 && (forall k :: level(k) <= cap)
      && looks == |asked| && busy == Told(cap, level, asked)
    }

    /** The stream is used up, or the run. */
    predicate LoadsOver()
      reads this
    {
      looks == patience || taken == |incoming|
    }

    /** No more stores are granted, or the run is used up. */
    predicate StoresOver()
      reads this
    {
      looks == patience || |sent| >= room
    }

    /** A load of the data register. */
    method Load() returns (granted: bool, word: Word)
      requires Valid()
      modifies this`taken
      ensures Valid()
      ensures granted <==> old(taken) < |incoming|
      ensures if granted then taken == old(taken) + 1 && word == incoming[old(taken)] else taken == old(taken)
    {
      if taken == |incoming| {
        return false, [];
      }
      granted, word := true, incoming[taken];
      taken := taken + 1;
    }

    /** A store to the data register. */
    method Store(word: Word) returns (granted: bool)
      requires Valid()
      modifies this`sent
      ensures Valid() && sent == if granted then old(sent) + [word] else old(sent)
      ensures granted <==> |old(sent)| < room
    {
      granted := |sent| < room;
      if granted {
        sent := sent + [word];
      }
    }

    /** PtcFifoStatus: a load of the status register of the incoming stream. */
    method PtcStatus() returns (granted: bool, status: nat)
      requires Valid()
      modifies this`looks, this`asked, this`busy
      ensures Valid() && granted == (old(looks) < patience) && looks == old(looks) + if granted then 1 else 0
      ensures granted ==> (FifoStatus.Empty(status) <==> FifoStatus.Rcount(status) == 0)
      ensures OnlyAsked(old(asked), asked, Ptc)
      ensures busy == old(busy) + if granted && FifoStatus.Rcount(status) > 0 then 1 else 0
    {
      granted, status := looks < patience, FifoStatus.StatusWord(cap, level(looks));
      if granted {
        FifoStatus.StatusDecodes(cap, level(looks));
        ToldNext(cap, level, asked, Ptc);
        looks, asked, busy := looks + 1, asked + [Ptc], busy + if FifoStatus.Rcount(status) > 0 then 1 else 0;
      }
    }

    /** CtpFifoStatus: a load of the status register of the answer stream. */
    method CtpStatus() returns (granted: bool, status: nat)
      requires Valid()
      modifies this`looks, this`asked, this`busy
      ensures Valid() && granted == (old(looks) < patience) && looks == old(looks) + if granted then 1 else 0
      ensures OnlyAsked(old(asked), asked, Ctp)
      ensures busy == old(busy) + if granted && FifoStatus.Wcount(status) > 0 then 1 else 0
    {
      granted, status := looks < patience, FifoStatus.StatusWord(cap, level(looks));
      if granted {
        FifoStatus.StatusDecodes(cap, level(looks));
        ToldNext(cap, level, asked, Ctp);
        looks, asked, busy := looks + 1, asked + [Ctp], busy + if FifoStatus.Wcount(status) > 0 then 1 else 0;
      }
    }
  }

  /** Of the status reads that reported something, each but the last of a cut run led to a transfer. */
  predicate Used(busy0: nat, busy: nat, moved: int, cut: bool) {
    busy <= busy0 + moved + if cut then 1 else 0
  }

  /** PtcFifoRead: load words with no check of the FIFO. */
  method PtcFifoRead(link: CoreLink, words: array<Word>, at: nat, count: nat) returns (got: nat)
    requires link.Valid() && at + count <= words.Length
    modifies link`taken, words
    ensures link.Valid() && got <= count && (got < count ==> link.LoadsOver())
    ensures link.taken == old(link.taken) + got
    ensures words[..at + got] == old(words[..at]) + link.incoming[old(link.taken)..link.taken]
    ensures forall k :: at + got <= k < words.Length ==> words[k] == old(words[k])
  {
    hide Told, Uniform;
    got := 0;
    while got < count
      invariant link.Valid() && got <= count && link.taken == old(link.taken) + got
      invariant words[..at + got] == old(words[..at]) + link.incoming[old(link.taken)..link.taken]
      invariant forall k :: at + got <= k < words.Length ==> words[k] == old(words[k])
    {
      var granted, word := link.Load();
      if !granted {
        return;
      }
      words[at + got] := word;
      got := got + 1;
      assert words[..at + got] == words[..at + got - 1] + [word];
    }
  }

  /** PtcReadWordsBlocking: fill the buffer with the next words of the stream. */
  method PtcReadWordsBlocking(link: CoreLink, words: array<Word>, count: nat) returns (alive: bool, read: nat)
    requires link.Valid() && count <= words.Length
    modifies link`taken, link`looks, link`asked, link`busy, words
    ensures link.Valid() && read <= count && (alive <==> read == count) && (!alive ==> link.LoadsOver())
    ensures Used(old(link.busy), link.busy, read, !alive) && OnlyAsked(old(link.asked), link.asked, Ptc)
    ensures link.taken == old(link.taken) + read && words[..read] == link.incoming[old(link.taken)..link.taken]
    ensures forall k :: read <= k < words.Length ==> words[k] == old(words[k])
  {
    hide FifoStatus.Empty, FifoStatus.Rcount, OnlyAsked, Told;
    assert OnlyAsked(link.asked, link.asked, Ptc) by { AskedNone(link.asked, Ptc); }
    read := 0;
    while read < count
      invariant Used(old(link.busy), link.busy, read, false) && OnlyAsked(old(link.asked), link.asked, Ptc)
      invariant link.Valid() && read <= count && link.taken == old(link.taken) + read
      invariant words[..read] == link.incoming[old(link.taken)..link.taken]
      invariant forall k :: read <= k < words.Length ==> words[k] == old(words[k])
      decreases count - read, link.patience - link.looks
    {
      ghost var asked := link.asked;
      var granted, status := link.PtcStatus();
      AskedMore(old(link.asked), asked, link.asked, Ptc);
      if !granted {
        return false, read;
      }
      var available := FifoStatus.Rcount(status);
      if available == 0 {
        continue;
      }
      var chunk := count - read;
      if chunk > available {
        chunk := available;
      }
      ghost var before := words[..read];
      var got := PtcFifoRead(link, words, read, chunk);
      assert before + link.incoming[old(link.taken) + read..link.taken] == link.incoming[old(link.taken)..link.taken];
      read := read + got;
      if got < chunk {
        return false, read;
      }
    }
    alive := true;
  }

  /** PtcDrainWordsBlocking: take words one at a time into a dummy. */
  method PtcDrainWordsBlocking(link: CoreLink, count: nat) returns (alive: bool, ghost drained: nat)
    requires link.Valid()
    modifies link`taken, link`looks, link`asked, link`busy
    ensures link.Valid() && drained <= count && (alive <==> drained == count) && (!alive ==> link.LoadsOver())
    ensures link.taken == old(link.taken) + drained && Used(old(link.busy), link.busy, drained, !alive)
    ensures OnlyAsked(old(link.asked), link.asked, Ptc)
  {
    hide OnlyAsked, Told;
    AskedNone(link.asked, Ptc);
    var dummy := new Word[1](_ => []);
    var left := count;
    drained := 0;
    while left != 0
      invariant link.Valid() && drained + left == count && link.taken == old(link.taken) + drained
      invariant Used(old(link.busy), link.busy, drained, false) && OnlyAsked(old(link.asked), link.asked, Ptc)
    {
      ghost var asked := link.asked;
      var one, read := PtcReadWordsBlocking(link, dummy, 1);
      AskedMore(old(link.asked), asked, link.asked, Ptc);
      drained := drained + read;
      if !one {
        return false, drained;
      }
      left := left - 1;
    }
    alive := true;
  }

  lemma UniformFilled(n: nat, was: seq<Word>, now: seq<Word>, read: nat, source: seq<Word>, from: nat)
    requires Uniform(n, was) && Uniform(n, source) && |was| == |now| && read <= |now| && from + read <= |source|
    requires now[..read] == source[from..from + read]
    requires forall k :: read <= k < |now| ==> now[k] == was[k]
    ensures Uniform(n, now)
  {
    forall k | 0 <= k < read ensures |now[k]| == n {
      assert now[k] == now[..read][k] == source[from + k];
    }
  }

  /** PtcReadFrameBlocking: read one frame into the buffer, or drain it if it is too large. */
  method PtcReadFrameBlocking(link: CoreLink, words: array<Word>) returns (r: ReadResult, ghost taken: seq<Word>)
    requires link.Valid()
    modifies link`taken, link`looks, link`asked, link`busy, words
    ensures link.Valid() && link.taken == old(link.taken) + |taken|
    ensures taken == link.incoming[old(link.taken)..link.taken]
    ensures Reports(link.n, words.Length, r, taken, words[..])
    ensures r.Cut? ==> link.LoadsOver()
    ensures Used(old(link.busy), link.busy, |taken|, r.Cut?) && OnlyAsked(old(link.asked), link.asked, Ptc)
    ensures Uniform(link.n, old(words[..])) ==> Uniform(link.n, words[..])
  {
    hide FifoStatus.Empty, FifoStatus.Rcount, FromWord, OnlyAsked, PayloadWords, Told;
    AskedNone(link.asked, Ptc);
    var n := link.n;
    taken := [];
    var ready := false;
    while !ready
      invariant link.Valid() && link.taken == old(link.taken) && words[..] == old(words[..])
      invariant Used(old(link.busy), link.busy, 0, ready) && OnlyAsked(old(link.asked), link.asked, Ptc)
      decreases link.patience - link.looks, !ready
    {
      ghost var asked := link.asked;
      var granted, status := link.PtcStatus();
      AskedMore(old(link.asked), asked, link.asked, Ptc);
      if !granted {
        return Cut, [];
      }
      ready := !FifoStatus.Empty(status) && FifoStatus.Rcount(status) >= 1;
    }
    var granted, header := link.Load();
    if !granted {
      return Cut, [];
    }
    assert |header| == n;
    ghost var start, asked := link.taken - 1, link.asked;
    taken := [header];
    ToFromWord(header);
    var size := FromWord(header);
    var count := PayloadWords(n, size);
    if count > words.Length {
      var alive;
      ghost var drained;
      alive, drained := PtcDrainWordsBlocking(link, count);
      AskedMore(old(link.asked), asked, link.asked, Ptc);
      taken := link.incoming[start..link.taken];
      r := if alive then Frame(false, 0) else Cut;
    } else {
      var alive, read := true, 0;
      if count != 0 {
        alive, read := PtcReadWordsBlocking(link, words, count);
        AskedMore(old(link.asked), asked, link.asked, Ptc);
      }
      taken := link.incoming[start..link.taken];
      assert taken[1..] == words[..read];
      if Uniform(n, old(words[..])) {
        UniformFilled(n, old(words[..]), words[..], read, link.incoming, start + 1);
      }
      r := if alive then Frame(true, size) else Cut;
    }
  }

  /** CtpFifoWrite: store words with no check of the FIFO. */
  method CtpFifoWrite(link: CoreLink, words: seq<Word>) returns (put: nat)
    requires link.Valid()
    modifies link`sent
    ensures link.Valid() && put <= |words| && (put < |words| ==> link.StoresOver())
    ensures link.sent == old(link.sent) + words[..put]
  {
    hide Told, Uniform;
    put := 0;
    while put < |words|
      invariant link.Valid() && put <= |words| && link.sent == old(link.sent) + words[..put]
    {
      var granted := link.Store(words[put]);
      if !granted {
        return;
      }
      put := put + 1;
      assert words[..put] == words[..put - 1] + [words[put - 1]];
    }
  }

  /** CtpWriteWordsBlocking: append words to the answer stream. */
  method CtpWriteWordsBlocking(link: CoreLink, words: seq<Word>) returns (alive: bool, written: nat)
    requires link.Valid()
    modifies link`sent, link`looks, link`asked, link`busy
    ensures link.Valid() && written <= |words| && (alive <==> written == |words|) && (!alive ==> link.StoresOver())
    ensures link.sent == old(link.sent) + words[..written]
    ensures Used(old(link.busy), link.busy, written, !alive) && OnlyAsked(old(link.asked), link.asked, Ctp)
  {
    hide FifoStatus.Wcount, OnlyAsked, Told;
    AskedNone(link.asked, Ctp);
    written := 0;
    while written < |words|
      invariant link.Valid() && written <= |words| && link.sent == old(link.sent) + words[..written]
      invariant Used(old(link.busy), link.busy, written, false) && OnlyAsked(old(link.asked), link.asked, Ctp)
      decreases |words| - written, link.patience - link.looks
    {
      ghost var asked := link.asked;
      var granted, status := link.CtpStatus();
      AskedMore(old(link.asked), asked, link.asked, Ctp);
      if !granted {
        return false, written;
      }
      var free := FifoStatus.Wcount(status);
      if free == 0 {
        continue;
      }
      var chunk := |words| - written;
      if chunk > free {
        chunk := free;
      }
      var put := CtpFifoWrite(link, words[written..written + chunk]);
      assert words[..written + put] == words[..written] + words[written..written + chunk][..put];
      written := written + put;
      if put < chunk {
        return false, written;
      }
    }
    alive := true;
  }

  /** CtpWriteFrameBlocking: pad the buffer in place, then send header and payload. */
  method CtpWriteFrameBlocking(link: CoreLink, words: array<Word>, size: nat) returns (alive: bool)
    requires link.Valid() && Uniform(link.n, words[..])
    requires size < Range(link.n) && PayloadWords(link.n, size) <= words.Length
    modifies link`sent, link`looks, link`asked, link`busy, words
    ensures link.Valid() && Uniform(link.n, words[..]) && (!alive ==> link.StoresOver())
    ensures var payload := BytesOf(old(words[..PayloadWords(link.n, size)]), size);
            var frame := [ToWord(link.n, size)] + Chunk(link.n, payload);
            && old(link.sent) <= link.sent <= old(link.sent) + frame
            && (alive ==> link.sent == old(link.sent) + frame)
    ensures Used(old(link.busy), link.busy, |link.sent| - |old(link.sent)|, !alive)
    ensures OnlyAsked(old(link.asked), link.asked, Ctp)
  {
    hide BytesOf, Chunk, OnlyAsked, PayloadWords, Range, Told, ToWord, WordsFor;
    var n := link.n;
    ghost var before := link.sent;
    Pad(n, words, size);
    var count := PayloadWords(n, size);
    var header, body := ToWord(n, size), words[..count];
    var written;
    alive, written := CtpWriteWordsBlocking(link, [header]);
    if !alive {
      return;
    }
    assert link.sent == before + [header];
    assert before + [header] + body == before + ([header] + body);
    if count != 0 {
      ghost var asked := link.asked;
      alive, written := CtpWriteWordsBlocking(link, body);
      AskedMore(old(link.asked), asked, link.asked, Ctp);
      assert before + [header] + body[..written] == before + ([header] + body[..written]);
    }
  }

  /** ECHO_BUFFER_WORDS */
  function BufferWords(n: WordBytes): nat { (1024 + n - 1) / n }

  /** One frame alone, complete or not. */
  lemma OneFrame(n: WordBytes, maxWords: nat, r: ReadResult, frame: seq<Word>, buf: seq<Word>)
    requires Uniform(n, frame) && Reports(n, maxWords, r, frame, buf)
    ensures r.Cut? ==> Answers(n, maxWords, frame) == [] && Decode(n, maxWords, frame) == []
    ensures r.Frame? ==> Whole(n, frame) && |Decode(n, maxWords, frame)| == 1 && !(r.ok && r.size >= Range(n))
    ensures r.Frame? && !r.ok ==> Answers(n, maxWords, frame) == []
    ensures r.Frame? && r.ok ==>
      && PayloadWords(n, r.size) <= |buf|
      && Answers(n, maxWords, frame) == [ToWord(n, r.size)] + Chunk(n, BytesOf(buf[..PayloadWords(n, r.size)], r.size))
  {
    hide BytesOf, Chunk, Decode, FromWord, PayloadWords, Range, ToWord, Whole;
    ReportDecodes(n, maxWords, r, frame, buf);
    if frame != [] {
      AnswersStep(n, maxWords, frame, []);
      assert frame + [] == frame && Answers(n, maxWords, []) == [];
      ToFromWord(frame[0]);
    }
  }

  /** One turn of the main loop: a frame that fits is answered by itself, a larger one by nothing. */
  method EchoFrame(link: CoreLink, buf: array<Word>) returns (alive: bool, ghost frame: seq<Word>)
    requires link.Valid() && Uniform(link.n, buf[..])
    modifies link`taken, link`looks, link`asked, link`busy, link`sent, buf
    ensures link.Valid() && Uniform(link.n, buf[..]) && Uniform(link.n, frame)
    ensures link.taken == old(link.taken) + |frame| && frame == link.incoming[old(link.taken)..link.taken]
    ensures old(link.sent) <= link.sent <= old(link.sent) + Answers(link.n, buf.Length, frame)
    ensures alive ==> Whole(link.n, frame) && |Decode(link.n, buf.Length, frame)| == 1
    ensures alive ==> link.sent == old(link.sent) + Answers(link.n, buf.Length, frame)
    ensures !alive ==>
      link.StoresOver() || (link.LoadsOver() && link.sent == old(link.sent) + Answers(link.n, buf.Length, frame))
    ensures |Decode(link.n, buf.Length, frame)| <= 1
    ensures Used(old(link.busy), link.busy, |frame| + |link.sent| - |old(link.sent)|, !alive)
    ensures Answers(link.n, buf.Length, frame) == [] ==> OnlyAsked(old(link.asked), link.asked, Ptc)
  {
    var n := link.n;
    var r;
    r, frame := PtcReadFrameBlocking(link, buf);
    assert Uniform(n, frame);
    OneFrame(n, buf.Length, r, frame, buf[..]);
    hide Answers, BytesOf, Chunk, Decode, OnlyAsked, PayloadWords, Range, Reports, Told, ToWord, Uniform, Whole;
    alive := r.Frame?;
    if r.Frame? && r.ok {
      assert buf[..][..PayloadWords(n, r.size)] == buf[..PayloadWords(n, r.size)];
      alive := CtpWriteFrameBlocking(link, buf, r.size);
    }
  }

  /** One more frame after complete ones. */
  lemma NextFrame(n: WordBytes, maxWords: nat, incoming: seq<Word>, done: nat, taken: nat)
    requires Uniform(n, incoming) && done <= taken <= |incoming|
    requires Uniform(n, incoming[..done]) && Whole(n, incoming[..done])
    ensures Uniform(n, incoming[done..taken]) && Uniform(n, incoming[..taken])
    ensures Answers(n, maxWords, incoming[..taken])
         == Answers(n, maxWords, incoming[..done]) + Answers(n, maxWords, incoming[done..taken])
    ensures Decode(n, maxWords, incoming[..taken])
         == Decode(n, maxWords, incoming[..done]) + Decode(n, maxWords, incoming[done..taken])
    ensures Whole(n, incoming[done..taken]) ==> Whole(n, incoming[..taken])
  {
    var ws, rest := incoming[..done], incoming[done..taken];
    assert Uniform(n, rest) && incoming[..taken] == ws + rest;
    hide *;
    AnswersWhole(n, maxWords, ws, rest);
    DecodeWhole(n, maxWords, ws, rest);
    UniformConcat(n, ws, rest);
    if Whole(n, rest) {
      WholeConcat(n, ws, rest);
    }
  }

  /**
   The echo's main loop over any stream of words at all. What it has sent is always the start of
   the answers to what it has taken. It stops short of them only when no store is granted any more
   or the run is used up, and short of the stream only then or after all its turns; and while a run
   lasts, status reads that report something are never wasted.
   */
  method EchoLoop(link: CoreLink, rounds: nat)
    requires link.Valid() && link.taken == 0 && link.sent == [] && link.asked == []
    modifies link`taken, link`looks, link`asked, link`busy, link`sent
    ensures link.Valid()
    ensures link.sent <= Answers(link.n, BufferWords(link.n), link.incoming[..link.taken])
    ensures link.sent == Answers(link.n, BufferWords(link.n), link.incoming[..link.taken]) || link.StoresOver()
    ensures |Decode(link.n, BufferWords(link.n), link.incoming[..link.taken])| <= rounds
    ensures || |Decode(link.n, BufferWords(link.n), link.incoming[..link.taken])| == rounds
            || link.LoadsOver() || link.StoresOver()
    ensures rounds > |Decode(link.n, BufferWords(link.n), link.incoming)| ==>
      || link.StoresOver()
      || (link.taken == |link.incoming| && link.sent == Answers(link.n, BufferWords(link.n), link.incoming))
    ensures Used(0, link.busy, link.taken + |link.sent|, true)
    ensures Answers(link.n, BufferWords(link.n), link.incoming[..link.taken]) == [] ==> OnlyAsked([], link.asked, Ptc)
  {
    var n, alive := link.n, true;
    var buf := new Word[BufferWords(n)](_ => ToWord(n, 0));
    ghost var max, incoming := buf.Length, link.incoming;
    assert Uniform(n, buf[..]) && Uniform(n, incoming);
    ghost var ws := incoming[..0];
    assert ws == [] && Uniform(n, ws) && Whole(n, ws) && Decode(n, max, ws) == [] && Answers(n, max, ws) == [];
    AskedNone([], Ptc);
    hide Answers, BufferWords, Decode, OnlyAsked, Told, Uniform, Whole;
    for i := 0 to rounds
      invariant link.Valid() && Uniform(n, buf[..]) && ws == incoming[..link.taken]
      invariant Uniform(n, ws) && Whole(n, ws) && |Decode(n, max, ws)| == i && link.sent == Answers(n, max, ws)
      invariant Used(0, link.busy, link.taken + |link.sent|, false)
      invariant Answers(n, max, ws) == [] ==> OnlyAsked([], link.asked, Ptc)
    {
      ghost var done, asked, frame := link.taken, link.asked, [];
      alive, frame := EchoFrame(link, buf);
      NextFrame(n, max, incoming, done, link.taken);
      if Answers(n, max, incoming[..link.taken]) == [] {
        AskedMore([], asked, link.asked, Ptc);
      }
      ws := incoming[..link.taken];
      if !alive {
        assert incoming[..|incoming|] == incoming;
        return;
      }
    }
    NextFrame(n, max, incoming, link.taken, |incoming|);
    assert incoming[..|incoming|] == incoming;
  }
}
