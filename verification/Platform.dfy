/**
 The platform side of the message link: the FIFO helpers of fifo.h and the message loops of
 platform.cpp, on top of the cycle-by-cycle driver. `base` is the start of the window's register
 region. A run may be cut short while the platform waits, as the simulation's time limit does:
 `polls` bounds the number of fruitless polls.
 */
module Platform {

  import opened Words
  import opened Frames
  import opened History
  import opened Window
  import opened FifoRefinement
  import AsyncFifo
  import FifoModel
  import Axi2Ram
  import FifoStatus
  import GrayCode

  /** The status register is at base and the data register one word above it. */
  predicate Mapped(win: Window, base: nat) {
    var n, depth := win.fifo.n, Depth(win.fifo.aw);
    && IsAligned(base, n) && IsAligned(base + n, n)
    && GrayCode.Wrap(base, depth) == 0 && GrayCode.Wrap(base + n, depth) == AsyncFifo.DataAddr(win.fifo.aw, n)
  }

  /** Register regions start at multiples of 64 KiB, so they are mapped for every FIFO size. */
  lemma RegionsMapped(win: Window, region: nat)
    requires win.fifo.n == 4 || win.fifo.n == 8
    requires 3 <= win.fifo.aw <= 12
    ensures Mapped(win, 0x1_0000 * region)
  {
    var n, aw := win.fifo.n, win.fifo.aw;
    var k := DepthDivides(aw, region);
    assert Depth(aw) > 0;
    assert 0 + k * Depth(aw) == 0x1_0000 * region && n + k * Depth(aw) == 0x1_0000 * region + n;
    GrayCode.WrapMultiple(0, k, Depth(aw));
    GrayCode.WrapMultiple(n, k, Depth(aw));
    assert GrayCode.Wrap(0, Depth(aw)) == 0;
    RegionAligned(n, region);
  }

  lemma MultipleAligned(n: WordBytes, x: nat, q: nat)
    requires x == n * q
    ensures x % n == 0
  {
    if n == 4 {
      assert x == 4 * q;
    } else {
      assert x == 8 * q;
    }
  }

  lemma RegionAligned(n: WordBytes, region: nat)
    ensures (0x1_0000 * region) % n == 0 && (0x1_0000 * region + n) % n == 0
  {
    var q := if n == 4 then 0x4000 * region else 0x2000 * region;
    assert n * q == 0x1_0000 * region && n * (q + 1) == 0x1_0000 * region + n by {
      if n == 4 { assert 4 * q == 0x1_0000 * region; } else { assert 8 * q == 0x1_0000 * region; }
    }
    MultipleAligned(n, 0x1_0000 * region, q);
    MultipleAligned(n, 0x1_0000 * region + n, q + 1);
  }

  /** How many FIFO depths lie below a region. */
  lemma DepthDivides(aw: nat, region: nat) returns (k: nat)
    requires 3 <= aw <= 12
    ensures 0x1_0000 * region == k * Depth(aw)
  {
    assert Depth(3) == 8 && Depth(4) == 16;
    assert Depth(5) == 32 && Depth(6) == 64;
    assert Depth(7) == 128 && Depth(8) == 256;
    assert Depth(9) == 512 && Depth(10) == 1024;
    assert Depth(11) == 2048 && Depth(12) == 4096;
    k := if aw == 3 then 8192 * region else if aw == 4 then 4096 * region
         else if aw == 5 then 2048 * region else if aw == 6 then 1024 * region
         else if aw == 7 then 512 * region else if aw == 8 then 256 * region
         else if aw == 9 then 128 * region else if aw == 10 then 64 * region
         else if aw == 11 then 32 * region else 16 * region;
  }

  /**
   What waiting costs. Each poll given up on read a status word that reported nothing to move, and
   was followed by 50 idle cycles; a run is cut only when the last poll allowed is fruitless too.
   */
  predicate Waited(refused0: nat, refused: nat, t0: nat, t: nat, polls: nat, left: nat, cut: bool) {
    && left <= polls && (cut ==> left == 0)
    && refused == refused0 + (polls - left) + (if cut then 1 else 0)
    && t >= t0 + 50 * (polls - left)
  }

  /** Between two accesses of the platform. */
  ghost predicate Ready(win: Window, base: nat)
    reads win, win.bridge, win.fifo, win.fifo.ram, win.fifo.ram.mem
  {
    && win.Valid() && win.Resting() && win.quiet >= 1
    && Mapped(win, base) && AsyncFifo.DataAddr(win.fifo.aw, win.fifo.n) != 0
  }

  /** PtcFifoStatus and CtpFifoStatus: the count in the status word is a credit. */
  method FifoStatusWord(win: Window, base: nat) returns (status: Word)
    requires Ready(win, base)
    modifies win, win.bridge, win.fifo, win.fifo.ram, win.fifo.ram.mem
    ensures Ready(win, base) && win.Stream() == old(win.Stream())
    ensures win.Tells(status, win.credit)
    ensures win.refused == old(win.refused) + (if win.credit == 0 then 1 else 0) && win.t == old(win.t) + 4
  {
    hide AsyncFifo.DataAddr, AsyncFifo.Fifo.Valid, Depth, GrayCode.Wrap, IsAligned, ReadTraces, Window.Tells;
    hide Window.Resting, Window.Stream, Window.Valid;
    AlignedIs(base, win.fifo.n);
    var code, data := win.Axi4Read(base, 1, Fixed);
    status := data[0];
  }

  /** PtcFifoWrite: one transaction for each word, with no check of the FIFO. */
  method PtcFifoWrite(win: Window, base: nat, data: seq<Word>)
    requires Ready(win, base) && win.ptc && forall k :: 0 <= k < |data| ==> |data[k]| == win.fifo.n
    modifies win, win.bridge, win.fifo, win.fifo.ram, win.fifo.ram.mem
    ensures Ready(win, base) && win.refused == old(win.refused) && win.t == old(win.t) + 5 * |data|
    ensures old(win.credit) >= |data| ==>
      win.Stream() == old(win.Stream()) + data && win.credit == old(win.credit) - |data|
  {
    hide AsyncFifo.DataAddr, AsyncFifo.Fifo.Valid, Depth, GrayCode.Wrap, IsAligned, Window.Resting, Window.Stream;
    hide Window.Valid, WriteTraces;
    AlignedIs(base + win.fifo.n, win.fifo.n);
    ghost var moved := win.Stream();
    for i := 0 to |data|
      invariant win.refused == old(win.refused) && win.t == old(win.t) + 5 * i
      invariant Ready(win, base) && moved == old(win.Stream()) + data[..i]
      invariant old(win.credit) >= |data| ==> win.Stream() == moved && win.credit == old(win.credit) - i
    {
      var code := win.Axi4Write(base + win.fifo.n, [data[i]], Fixed);
      assert data[..i + 1] == data[..i] + [data[i]];
      moved := moved + [data[i]];
    }
    assert data[..|data|] == data;
  }

  /** CtpFifoRead: one transaction for each word, with no check of the FIFO. */
  method CtpFifoRead(win: Window, base: nat, words: nat) returns (data: seq<Word>)
    requires Ready(win, base) && !win.ptc
    modifies win, win.bridge, win.fifo, win.fifo.ram, win.fifo.ram.mem
    ensures Ready(win, base) && |data| == words && win.refused == old(win.refused) && win.t == old(win.t) + 4 * words
    ensures old(win.credit) >= words ==>
      win.Stream() == old(win.Stream()) + data && win.credit == old(win.credit) - words
  {
    hide AsyncFifo.DataAddr, AsyncFifo.Fifo.Valid, Depth, GrayCode.Wrap, IsAligned, ReadTraces, Window.CountIn;
    hide Window.Resting, Window.Stream, Window.Valid;
    AlignedIs(base + win.fifo.n, win.fifo.n);
    data := [];
    for i := 0 to words
      invariant Ready(win, base) && |data| == i
      invariant win.refused == old(win.refused) && win.t == old(win.t) + 4 * i
      invariant old(win.credit) >= words ==>
        win.Stream() == old(win.Stream()) + data && win.credit == old(win.credit) - i
    {
      var code, word := win.Axi4Read(base + win.fifo.n, 1, Fixed);
      data := data + word;
    }
  }

  /** Cycles in which the platform leaves this window alone. */
  method Pause(win: Window, base: nat, cycles: nat)
    requires Ready(win, base)
    modifies win, win.bridge, win.fifo, win.fifo.ram, win.fifo.ram.mem
    ensures Ready(win, base) && win.Stream() == old(win.Stream()) && win.credit == old(win.credit)
    ensures win.t == old(win.t) + cycles && win.refused == old(win.refused)
    ensures old(win.fifo.abs.pushed) <= win.fifo.abs.pushed && old(win.fifo.popped) <= win.fifo.popped
  {
    hide AsyncFifo.DataAddr, AsyncFifo.Fifo.Valid, Axi2Ram.BeatBytes, Mapped, Window.Valid;
    for i := 0 to cycles
      invariant Ready(win, base) && win.Stream() == old(win.Stream()) && win.credit == old(win.credit)
      invariant win.t == old(win.t) + i && win.refused == old(win.refused)
      invariant old(win.fifo.abs.pushed) <= win.fifo.abs.pushed && old(win.fifo.popped) <= win.fifo.popped
    {
      win.SilentCycle();
    }
  }

  /** IdleStep: 50 cycles in which the platform does nothing. */
  method IdleStep(win: Window, base: nat)
    requires Ready(win, base)
    modifies win, win.bridge, win.fifo, win.fifo.ram, win.fifo.ram.mem
    ensures Ready(win, base) && win.Stream() == old(win.Stream()) && win.credit == old(win.credit)
    ensures win.t == old(win.t) + 50 && win.refused == old(win.refused)
  {
    hide Ready, Window.Stream;
    Pause(win, base, 50);
  }

  /**
   WritePtcWords: chunks as large as the reported free space. Every word arrives, once and in
   order: the platform never pushes into a full FIFO.
   */
  method WritePtcWords(win: Window, base: nat, words: seq<Word>, polls: nat) returns (written: nat, left: nat)
    requires Ready(win, base) && win.ptc && forall k :: 0 <= k < |words| ==> |words[k]| == win.fifo.n
    modifies win, win.bridge, win.fifo, win.fifo.ram, win.fifo.ram.mem
    ensures Ready(win, base) && written <= |words|
    ensures win.Stream() == old(win.Stream()) + words[..written]
    ensures Waited(old(win.refused), win.refused, old(win.t), win.t, polls, left, written < |words|)
  {
    hide AsyncFifo.DataAddr, AsyncFifo.Fifo.Valid, FifoStatus.Rcount, FifoStatus.Wcount, FromWord, Mapped;
    hide Window.Resting, Window.Stream, Window.Valid;
    written, left := 0, polls;
    while written < |words|
      invariant Ready(win, base) && written <= |words|
      invariant Waited(old(win.refused), win.refused, old(win.t), win.t, polls, left, false)
      invariant win.Stream() == old(win.Stream()) + words[..written]
      decreases |words| - written, left
    {
      var status := FifoStatusWord(win, base);
      var free := FifoStatus.Wcount(FromWord(status));
      if free == 0 {
        if left == 0 {
          return;
        }
        left := left - 1;
        IdleStep(win, base);
        continue;
      }
      var chunk := |words| - written;
      if chunk > free {
        chunk := free;
      }
      PtcFifoWrite(win, base, words[written..written + chunk]);
      assert words[..written + chunk] == words[..written] + words[written..written + chunk];
      written := written + chunk;
    }
  }

  /** WritePtcFramedMessage: pad the buffer in place, then send header and payload. */
  method WritePtcFramedMessage(win: Window, base: nat, words: array<Word>, size: nat, polls: nat)
    returns (complete: bool, left: nat)
    requires Ready(win, base) && win.ptc && (win.fifo.n == 4 || win.fifo.n == 8) && words != win.fifo.ram.mem
    requires forall k :: 0 <= k < words.Length ==> |words[k]| == win.fifo.n
    requires size < Range(win.fifo.n) && PayloadWords(win.fifo.n, size) == WordsFor(win.fifo.n, size) <= words.Length
    modifies words, win, win.bridge, win.fifo, win.fifo.ram, win.fifo.ram.mem
    ensures Ready(win, base)
    ensures forall k :: 0 <= k < words.Length ==> |words[k]| == win.fifo.n
    ensures var frame := EncodeFrame(win.fifo.n, BytesOf(old(words[..]), size));
            && old(win.Stream()) <= win.Stream() <= old(win.Stream()) + frame
            && (complete ==> win.Stream() == old(win.Stream()) + frame)
    ensures Waited(old(win.refused), win.refused, old(win.t), win.t, polls, left, !complete)
  {
    hide AsyncFifo.DataAddr, AsyncFifo.Fifo.Valid, Chunk, Flatten, Mapped, PayloadWords, Range, ToWord;
    hide Window.Resting, Window.Valid, WordsFor;
    ghost var before, payload := win.Stream(), BytesOf(words[..], size);
    var n := win.fifo.n;
    BytesOfStart(n, words[..], size);
    assert words[..][..WordsFor(n, size)] == words[..WordsFor(n, size)];
    Pad(n, words, size);
    assert before == win.Stream();
    assert Ready(win, base);
    var k := PayloadWords(n, size);
    var header, body := ToWord(n, size), words[..k];
    assert body == Chunk(n, payload) && |payload| == size;
    ghost var frame := EncodeFrame(n, payload);
    assert frame == [header] + body;
    var written;
    written, left := WritePtcWords(win, base, [header], polls);
    assert win.Stream() == before + [header][..written];
    if written < 1 {
      return false, left;
    }
    assert before + [header] + body == before + frame;
    written, left := WritePtcWords(win, base, body, left);
    assert before + [header] + body[..written] == before + ([header] + body[..written]);
    assert [header] + body[..written] == frame[..1 + written];
    complete := written == |body|;
  }

  /** The payload sent for a line of input: the bytes and a final NUL. */
  function Lines(inputs: seq<seq<Byte>>): (frames: seq<seq<Byte>>)
    ensures |frames| == |inputs|
  {
    seq(|inputs|, i requires 0 <= i < |inputs| => inputs[i] + [0])
  }

  lemma WordsBelow(n: WordBytes, size: nat, length: nat)
    requires size <= n * length
    ensures WordsFor(n, size) <= length
  {
    RoundUp(n, size);
    if n == 4 {
      assert 4 * WordsFor(n, size) < 4 * length + 4;
    } else {
      assert 8 * WordsFor(n, size) < 8 * length + 8;
    }
  }

  /** One line of input: into the buffer, NUL-terminated, framed and sent. */
  method SendLine(win: Window, base: nat, buf: array<Word>, input: seq<Byte>, polls: nat)
    returns (complete: bool, left: nat)
    requires Ready(win, base) && win.ptc && (win.fifo.n == 4 || win.fifo.n == 8) && buf != win.fifo.ram.mem
    requires forall k :: 0 <= k < buf.Length ==> |buf[k]| == win.fifo.n
    requires |input| < win.fifo.n * buf.Length <= Range(win.fifo.n) - win.fifo.n
    modifies buf, win, win.bridge, win.fifo, win.fifo.ram, win.fifo.ram.mem
    ensures Ready(win, base) && forall k :: 0 <= k < buf.Length ==> |buf[k]| == win.fifo.n
    ensures var frame := EncodeFrame(win.fifo.n, input + [0]);
            && old(win.Stream()) <= win.Stream() <= old(win.Stream()) + frame
            && (complete ==> win.Stream() == old(win.Stream()) + frame)
    ensures Waited(old(win.refused), win.refused, old(win.t), win.t, polls, left, !complete)
  {
    hide AsyncFifo.DataAddr, AsyncFifo.Fifo.Valid, BytesOf, EncodeFrame, Mapped, PayloadWords, Range, Window.Resting;
    hide Window.Valid, WordsFor;
    var n, size := win.fifo.n, |input| + 1;
    Fill(n, buf, input + [0]);
    assert win.Stream() == old(win.Stream());
    assert Ready(win, base);
    PayloadWordsExact(n, size);
    WordsBelow(n, size, buf.Length);
    complete, left := WritePtcFramedMessage(win, base, buf, size, polls);
  }

  lemma PrefixTrans(before: seq<Word>, a: seq<Word>, b: seq<Word>, s: seq<Word>)
    requires s <= before + a && a <= b
    ensures s <= before + b
  {}

  /**
   The sending half of the main loop: one message for each line of input, with any number of cycles
   between them. The words pushed so far are always the start of the encoded messages, and all of
   them unless the FIFO has refused to take more often enough.
   */
  method SendMessages(win: Window, base: nat, buf: array<Word>, inputs: seq<seq<Byte>>, pause: nat -> nat, polls: nat)
    returns (complete: bool, left: nat)
    requires Ready(win, base) && win.ptc && (win.fifo.n == 4 || win.fifo.n == 8) && buf != win.fifo.ram.mem
    requires forall k :: 0 <= k < buf.Length ==> |buf[k]| == win.fifo.n
    requires forall i :: 0 <= i < |inputs| ==> |inputs[i]| < win.fifo.n * buf.Length <= Range(win.fifo.n) - win.fifo.n
    modifies buf, win, win.bridge, win.fifo, win.fifo.ram, win.fifo.ram.mem
    ensures Ready(win, base)
    ensures old(win.Stream()) <= win.Stream() <= old(win.Stream()) + EncodeAll(win.fifo.n, Lines(inputs))
    ensures complete ==> win.Stream() == old(win.Stream()) + EncodeAll(win.fifo.n, Lines(inputs))
    ensures Waited(old(win.refused), win.refused, old(win.t), win.t, polls, left, !complete)
  {
    hide EncodeFrame, Range, Ready, Window.Stream;
    var n := win.fifo.n;
    left := polls;
    ghost var before, lines := win.Stream(), Lines(inputs);
    ghost var sent := EncodeAll(n, lines[..0]);
    assert sent == [];
    for i := 0 to |inputs|
      invariant Ready(win, base) && forall k :: 0 <= k < buf.Length ==> |buf[k]| == n
      invariant sent == EncodeAll(n, lines[..i]) && win.Stream() == before + sent
      invariant Waited(old(win.refused), win.refused, old(win.t), win.t, polls, left, false)
    {
      ghost var frame := EncodeFrame(n, lines[i]);
      assert lines[i] == inputs[i] + [0];
      Pause(win, base, pause(i));
      complete, left := SendLine(win, base, buf, inputs[i], left);
      EncodeAppend(n, lines[..i], lines[i]);
      assert lines[..i + 1] == lines[..i] + [lines[i]];
      EncodePrefix(n, lines[..i + 1], lines);
      assert before + sent + frame == before + (sent + frame);
      PrefixTrans(before, sent + frame, EncodeAll(n, lines), win.Stream());
      if !complete {
        return false, left;
      }
      sent := sent + frame;
    }
    assert lines[..|inputs|] == lines;
    complete := true;
  }

  /** CtpFifoReadReady(1): the status word reports at least one word. */
  method CtpFifoReady(win: Window, base: nat) returns (ready: bool)
    requires Ready(win, base) && !win.ptc
    modifies win, win.bridge, win.fifo, win.fifo.ram, win.fifo.ram.mem
    ensures Ready(win, base) && win.Stream() == old(win.Stream()) && (ready <==> win.credit >= 1)
    ensures win.refused == old(win.refused) + (if ready then 0 else 1) && win.t >= old(win.t)
  {
    hide FifoStatus.Empty, FifoStatus.Rcount, FifoStatus.Wcount, FromWord, Ready, Window.Stream;
    var status := FifoStatusWord(win, base);
    ready := !FifoStatus.Empty(FromWord(status)) && FifoStatus.Rcount(FromWord(status)) >= 1;
  }

  /** Poll until a word is there, then pop it. */
  method NextCtpWord(win: Window, base: nat, polls: nat) returns (got: bool, word: Word, left: nat)
    requires Ready(win, base) && !win.ptc
    modifies win, win.bridge, win.fifo, win.fifo.ram, win.fifo.ram.mem
    ensures Ready(win, base)
    ensures win.Stream() == old(win.Stream()) + if got then [word] else []
    ensures Waited(old(win.refused), win.refused, old(win.t), win.t, polls, left, !got)
  {
    hide Ready, Window.Stream;
    left := polls;
    var ready := CtpFifoReady(win, base);
    while !ready
      invariant Ready(win, base) && left <= polls && win.t >= old(win.t) + 50 * (polls - left)
      invariant win.refused == old(win.refused) + (polls - left) + if ready then 0 else 1
      invariant win.Stream() == old(win.Stream()) && (ready ==> win.credit >= 1)
      decreases left, !ready
    {
      if left == 0 {
        return false, [], 0;
      }
      left := left - 1;
      IdleStep(win, base);
      ready := CtpFifoReady(win, base);
    }
    var data := CtpFifoRead(win, base, 1);
    got, word := true, data[0];
    assert data == [word];
  }

  /** Pop `words` words and throw them away, one poll and one pop at a time. */
  method DrainCtp(win: Window, base: nat, words: nat, polls: nat) returns (drained: nat, left: nat)
    requires Ready(win, base) && !win.ptc
    modifies win, win.bridge, win.fifo, win.fifo.ram, win.fifo.ram.mem
    ensures Ready(win, base) && drained <= words
    ensures Waited(old(win.refused), win.refused, old(win.t), win.t, polls, left, drained < words)
    ensures |win.Stream()| == |old(win.Stream())| + drained && old(win.Stream()) <= win.Stream()
  {
    hide Ready, Window.Stream;
    var remaining := words;
    left, drained := polls, 0;
    while remaining != 0
      invariant Ready(win, base) && drained + remaining == words
      invariant Waited(old(win.refused), win.refused, old(win.t), win.t, polls, left, false)
      invariant |win.Stream()| == |old(win.Stream())| + drained && old(win.Stream()) <= win.Stream()
    {
      var got, dummy;
      got, dummy, left := NextCtpWord(win, base, left);
      if !got {
        return;
      }
      remaining, drained := remaining - 1, drained + 1;
    }
  }

  method StoreAt(buf: array<Word>, at: nat, data: seq<Word>)
    requires at + |data| <= buf.Length
    modifies buf
    ensures buf[..at + |data|] == old(buf[..at]) + data
    ensures forall k :: at + |data| <= k < buf.Length ==> buf[k] == old(buf[k])
  {
    forall i | 0 <= i < |data| {
      buf[at + i] := data[i];
    }
  }

  /** Pop a payload into the buffer, in chunks as large as the reported count. */
  method ReadCtpPayload(win: Window, base: nat, buf: array<Word>, words: nat, polls: nat) returns (read: nat, left: nat)
    requires Ready(win, base) && !win.ptc && words <= buf.Length && buf != win.fifo.ram.mem
    modifies buf, win, win.bridge, win.fifo, win.fifo.ram, win.fifo.ram.mem
    ensures Ready(win, base) && read <= words
    ensures Waited(old(win.refused), win.refused, old(win.t), win.t, polls, left, read < words)
    ensures win.Stream() == old(win.Stream()) + buf[..read]
    ensures forall k :: read <= k < buf.Length ==> buf[k] == old(buf[k])
  {
    hide AsyncFifo.DataAddr, AsyncFifo.Fifo.Valid, FifoStatus.Rcount, FifoStatus.Wcount, FromWord, Mapped;
    hide Window.Resting, Window.Valid;
    read, left := 0, polls;
    while read < words
      invariant Ready(win, base) && read <= words
      invariant Waited(old(win.refused), win.refused, old(win.t), win.t, polls, left, false)
      invariant win.Stream() == old(win.Stream()) + buf[..read]
      invariant forall k :: read <= k < buf.Length ==> buf[k] == old(buf[k])
      decreases words - read, left
    {
      var status := FifoStatusWord(win, base);
      var available := FifoStatus.Rcount(FromWord(status));
      if available == 0 {
        if left == 0 {
          return;
        }
        left := left - 1;
        IdleStep(win, base);
        continue;
      }
      var chunk := words - read;
      if chunk > available {
        chunk := available;
      }
      ghost var before, had := win.Stream(), buf[..read];
      var data := CtpFifoRead(win, base, chunk);
      assert win.Stream() == before + data && buf[..read] == had;
      StoreAt(buf, read, data);
      assert win.Stream() == before + data && Ready(win, base);
      read := read + chunk;
    }
  }

  /** Read one frame into the buffer; a frame too large for it is drained and reported as a failure. */
  method ReadCtpFramedMessage(win: Window, base: nat, buf: array<Word>, polls: nat)
    returns (r: ReadResult, ghost taken: seq<Word>, left: nat)
    requires Ready(win, base) && !win.ptc && (win.fifo.n == 4 || win.fifo.n == 8) && buf != win.fifo.ram.mem
    modifies buf, win, win.bridge, win.fifo, win.fifo.ram, win.fifo.ram.mem
    ensures Ready(win, base)
    ensures win.Stream() == old(win.Stream()) + taken
    ensures Reports(win.fifo.n, buf.Length, r, taken, buf[..])
    ensures Waited(old(win.refused), win.refused, old(win.t), win.t, polls, left, r.Cut?)
  {
    hide AsyncFifo.DataAddr, AsyncFifo.Fifo.Valid, CeilWords, FromWord, Mapped, PayloadWords, ToWord, Window.Resting;
    hide Window.Stream, Window.Valid;
    ghost var before := win.Stream();
    var n := win.fifo.n;
    var got, header;
    got, header, left := NextCtpWord(win, base, polls);
    taken := if got then [header] else [];
    if !got {
      return Cut, [], left;
    }
    assert |header| == n by {
      assert win.Valid();
      win.StreamWords();
      assert win.Stream()[|before|] == header;
    }
    ToFromWord(header);
    var size := FromWord(header);
    if size == 0 {
      assert PayloadWords(n, 0) == 0 by { PayloadWordsExact(n, 0); assert Range(n) >= n; }
      return Frame(true, 0), taken, left;
    }
    CeilIsPayload(n, size);
    var words := CeilWords(n, size);
    if words > buf.Length {
      ghost var had := win.Stream();
      var drained;
      drained, left := DrainCtp(win, base, words, left);
      taken := win.Stream()[|before|..];
      assert had == before + [header] && had <= win.Stream();
      assert win.Stream() == before + taken && taken[0] == header;
      r := if drained == words then Frame(false, 0) else Cut;
    } else {
      var read;
      read, left := ReadCtpPayload(win, base, buf, words, left);
      taken := taken + buf[..read];
      r := if read == words then Frame(true, size) else Cut;
    }
  }

  /** The words popped for one frame, and what they add to what has been decoded. */
  lemma FrameDecoded(win: Window, n: WordBytes, maxWords: nat, before: seq<Word>, taken: seq<Word>,
                     r: ReadResult, frame: seq<Word>, buf: seq<Word>)
    requires win.Valid() && win.fifo.n == n && win.Stream() == (before + taken) + frame
    requires Uniform(n, taken) && Whole(n, taken) && Reports(n, maxWords, r, frame, buf)
    ensures Uniform(n, taken + frame) && (r.Frame? ==> Whole(n, taken + frame))
    ensures r.Frame? ==> r.size < Range(n) && (r.ok ==> PayloadWords(n, r.size) <= |buf|)
    ensures Decode(n, maxWords, taken + frame) ==
            Decode(n, maxWords, taken) + if r.Cut? then [] else [Shown(n, maxWords, r.ok, r.size, buf)]
  {
    hide Decode, Whole, Reports, Shown, PayloadWords, Range, Window.Valid, Window.Stream;
    win.StreamWords();
    assert forall k :: 0 <= k < |frame| ==> frame[k] == win.Stream()[|before| + |taken| + k];
    ReportDecodes(n, maxWords, r, frame, buf);
    hide Uniform;
    DecodeWhole(n, maxWords, taken, frame);
    UniformConcat(n, taken, frame);
    if r.Frame? { WholeConcat(n, taken, frame); }
  }

  /**
   The receiving half of the main loop: read `rounds` messages with any number of cycles between
   them, unless the FIFO has had nothing often enough. What is shown is what the words popped so far
   decode to, however they came in.
   */
  method ReceiveMessages(win: Window, base: nat, buf: array<Word>, rounds: nat, pause: nat -> nat, polls: nat)
    returns (shown: seq<Message>, left: nat, ghost taken: seq<Word>)
    requires Ready(win, base) && !win.ptc && (win.fifo.n == 4 || win.fifo.n == 8) && buf != win.fifo.ram.mem
    modifies buf, win, win.bridge, win.fifo, win.fifo.ram, win.fifo.ram.mem
    ensures Ready(win, base) && win.Stream() == old(win.Stream()) + taken
    ensures Uniform(win.fifo.n, taken)
    ensures shown == Decode(win.fifo.n, buf.Length, taken) && |shown| <= rounds
    ensures Waited(old(win.refused), win.refused, old(win.t), win.t, polls, left, |shown| < rounds)
  {
    hide AsyncFifo.DataAddr, AsyncFifo.Fifo.Valid, BytesOf, FromWord, GrayCode.Decode, Mapped, PayloadWords, Range;
    hide Reports, Shown, Window.Resting, Window.Stream, Window.Valid;
    ghost var before := win.Stream();
    var n := win.fifo.n;
    left, shown, taken := polls, [], [];
    assert Uniform(n, taken) && Whole(n, taken) && Decode(n, buf.Length, taken) == [];
    for i := 0 to rounds
      invariant Ready(win, base) && win.Stream() == before + taken && |shown| == i
      invariant Uniform(n, taken) && Whole(n, taken) && shown == Decode(n, buf.Length, taken)
      invariant Waited(old(win.refused), win.refused, old(win.t), win.t, polls, left, false)
    {
      Pause(win, base, pause(i));
      var r;
      ghost var frame;
      r, frame, left := ReadCtpFramedMessage(win, base, buf, left);
      FrameDecoded(win, n, buf.Length, before, taken, r, frame, buf[..]);
      assert win.Stream() == before + (taken + frame);
      taken := taken + frame;
      if r.Cut? {
        return;
      }
      shown := shown + [Shown(n, buf.Length, r.ok, r.size, buf[..])];
    }
  }

  // ---------------------------------------------------------------------------
  // Whole sessions from reset
  // ---------------------------------------------------------------------------

  /**
   Sending from reset, for every FIFO size, every behaviour of the core and every way the
   synchronizers settle: what the core has popped is the start of the encoded messages, and all has
   been pushed unless the FIFO has refused to take more `polls` times and once again.
   */
  method SendSession(aw: nat, n: WordBytes, region: nat, around: Surroundings, inputs: seq<seq<Byte>>,
                     pause: nat -> nat, polls: nat)
    returns (win: Window, complete: bool, left: nat)
    requires 3 <= aw <= 12 && AsyncFifo.DataAddr(aw, n) != 0
    requires forall k :: CoreWired(aw, n, around, k)
    requires forall i :: 0 <= i < |inputs| ==> |inputs[i]| < 1024
    ensures win.Valid() && win.ptc && win.fifo.aw == aw && win.fifo.n == n && win.around == around
    ensures win.fifo.popped <= win.fifo.abs.pushed <= EncodeAll(n, Lines(inputs))
    ensures complete ==> win.fifo.abs.pushed == EncodeAll(n, Lines(inputs))
    ensures win.Recorded() && win.fifo.popped == Loads(aw, n, around, win.log)
    ensures Waited(0, win.refused, 0, win.t, polls, left, !complete)
  {
    hide CoreWired, EncodeAll, EncodeFrame, Lines, Decode, Uniform, AsyncFifo.DataAddr, Capacity, Depth, Range, Ready;
    hide Loads, Stores, ToWord, Window.Recorded, Window.Valid, Window.Resting, Mapped, AsyncFifo.Fifo.Valid;
    Capacities(aw);
    BufferFits(n);
    win := Start(true, aw, n, region, around);
    var buf := new Word[1024 / n](_ => ToWord(n, 0));
    assert win.Stream() == [];
    complete, left := SendMessages(win, 0x1_0000 * region, buf, inputs, pause, polls);
    assert [] + EncodeAll(n, Lines(inputs)) == EncodeAll(n, Lines(inputs));
    ReadyValid(win, 0x1_0000 * region);
    AsyncFifo.Safe(win.fifo);
    CoreSide(win);
  }

  /**
   Receiving from reset: what is shown is what the popped words decode to, and those are the first
   that the core has pushed; all rounds are served unless the FIFO has been empty often enough.
   */
  method ReceiveSession(aw: nat, n: WordBytes, region: nat, around: Surroundings, rounds: nat,
                        pause: nat -> nat, polls: nat)
    returns (win: Window, shown: seq<Message>, left: nat)
    requires 3 <= aw <= 12 && AsyncFifo.DataAddr(aw, n) != 0
    requires forall k :: CoreWired(aw, n, around, k)
    ensures win.Valid() && !win.ptc && win.fifo.aw == aw && win.fifo.n == n && win.around == around
    ensures win.fifo.popped <= win.fifo.abs.pushed
    ensures win.Recorded() && win.fifo.abs.pushed == Stores(aw, n, around, win.log)
    ensures Uniform(n, win.fifo.popped) && shown == Decode(n, 1024 / n, win.fifo.popped) && |shown| <= rounds
    ensures Waited(0, win.refused, 0, win.t, polls, left, |shown| < rounds)
  {
    hide CoreWired, EncodeAll, EncodeFrame, Lines, Decode, Uniform, AsyncFifo.DataAddr, Capacity, Depth, Range, Ready;
    hide Loads, Stores, ToWord, Window.Recorded, Window.Valid, Window.Resting, Mapped, AsyncFifo.Fifo.Valid;
    Capacities(aw);
    BufferFits(n);
    win := Start(false, aw, n, region, around);
    var buf := new Word[1024 / n](_ => ToWord(n, 0));
    assert win.Stream() == [];
    ghost var taken;
    shown, left, taken := ReceiveMessages(win, 0x1_0000 * region, buf, rounds, pause, polls);
    assert win.fifo.popped == taken;
    ReadyValid(win, 0x1_0000 * region);
    AsyncFifo.Safe(win.fifo);
    CoreSide(win);
  }

  lemma ReadyValid(win: Window, base: nat)
    requires Ready(win, base)
    ensures win.Valid() && win.fifo.Valid()
  {
    hide AsyncFifo.Fifo.Valid;
  }

  /** The core's side of a window is what its pins have asked for and been granted, cycle by cycle. */
  lemma CoreSide(win: Window)
    requires win.Valid()
    ensures win.Recorded()
    ensures win.ptc ==> win.fifo.popped == Loads(win.fifo.aw, win.fifo.n, win.around, win.log)
    ensures !win.ptc ==> win.fifo.abs.pushed == Stores(win.fifo.aw, win.fifo.n, win.around, win.log)
  {
    hide Capacity, Driven, FifoModel.Inv, FifoModel.Run, Loads, Refines, Stores, Stored;
    Sizes(win.fifo.aw);
    if win.ptc {
      LoadsArePopped(win.fifo.aw, win.fifo.n, win.around, win.log);
    } else {
      StoresArePushed(win.fifo.aw, win.fifo.n, win.around, win.log);
    }
  }

  /** A window just out of reset, mapped at a register region. */
  method Start(ptc: bool, aw: nat, n: WordBytes, region: nat, around: Surroundings) returns (win: Window)
    requires 3 <= aw <= 12 && Capacity(aw) <= 4095 && AsyncFifo.DataAddr(aw, n) != 0
    requires forall k :: CoreWired(aw, n, around, k)
    ensures fresh(win) && fresh(win.bridge) && fresh(win.fifo) && fresh(win.fifo.ram) && fresh(win.fifo.ram.mem)
    ensures Ready(win, 0x1_0000 * region) && win.ptc == ptc && win.around == around
    ensures win.fifo.aw == aw && win.fifo.n == n && win.t == 0 && win.refused == 0
    ensures win.fifo.abs.pushed == [] && win.fifo.popped == []
  {
    hide Window.Valid, Window.Resting, AsyncFifo.DataAddr, Mapped, Depth, Capacity, CoreWired;
    win := new Window(ptc, aw, n, around);
    RegionsMapped(win, region);
  }

  lemma Capacities(aw: nat)
    requires 3 <= aw <= 12
    ensures Capacity(aw) <= 4095
  {
    assert Depth(3) == 8 && Depth(4) == 16 && Depth(5) == 32 && Depth(6) == 64 && Depth(7) == 128;
    assert Depth(8) == 256 && Depth(9) == 512 && Depth(10) == 1024 && Depth(11) == 2048 && Depth(12) == 4096;
  }

  lemma BufferFits(n: WordBytes)
    ensures n * (1024 / n) == 1024 && 1024 <= Range(n) - n
  {
    assert Range(1) == 256 && Range(2) == 65536;
    RangeGrows(2, n);
  }
}
