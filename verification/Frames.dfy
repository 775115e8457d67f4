/**
 The framed message protocol that platform, echo firmware and Eprintf share: a word with the
 payload size in bytes, then the payload padded with NUL bytes to whole words.
 */
module Frames {

  import opened Words

  /** NB_BYTES_IN_WORD on RV32 and RV64. */
  type WordBytes = n: nat | n == 4 || n == 8 witness 4

  // ---------------------------------------------------------------------------
  // Sizes
  // ---------------------------------------------------------------------------

  /** Whole words needed for a payload: the size divided by n, rounded up. */
  function WordsFor(n: WordBytes, size: nat): nat {
    if size == 0 then 0 else if size <= n then 1 else 1 + WordsFor(n, size - n)
  }

  /** AlignUp(size, n) on machine words: the sum wraps, then the low bits are cleared. */
  function AlignUp(n: WordBytes, size: nat): nat
    requires size < Range(n)
  {
    var sum := size + (n - 1);
    var wrapped := if sum >= Range(n) then sum - Range(n) else sum;
    wrapped - wrapped % n
  }

  /** The payload words that sender and receiver compute from a size. */
  function PayloadWords(n: WordBytes, size: nat): nat
    requires size < Range(n)
  {
    AlignUp(n, size) / n
  }

  lemma {:induction false} RoundUp(n: WordBytes, size: nat)
    ensures (size + (n - 1)) / n == WordsFor(n, size)
    ensures size <= n * WordsFor(n, size) < size + n
  {
    if size > n {
      RoundUp(n, size - n);
      if n == 4 {
        assert (size + 3) / 4 == (size - 4 + 3) / 4 + 1;
      } else {
        assert (size + 7) / 8 == (size - 8 + 7) / 8 + 1;
      }
    }
  }

  lemma AlignedQuotient(n: WordBytes, x: nat)
    ensures x % n <= x && (x - x % n) / n == x / n && (x - x % n) % n == 0
  {
    if n == 4 {
      assert (x - x % 4) / 4 == x / 4;
    } else {
      assert (x - x % 8) / 8 == x / 8;
    }
  }

  /** Sizes within one word of the top of the address space wrap to zero payload words; no others do. */
  lemma PayloadWordsExact(n: WordBytes, size: nat)
    requires size < Range(n)
    ensures PayloadWords(n, size) == WordsFor(n, size) <==> size <= Range(n) - n
    ensures size > Range(n) - n ==> PayloadWords(n, size) == 0
  {
    assert Range(n) >= 256;
    hide Range;
    RoundUp(n, size);
    var sum := size + (n - 1);
    if sum >= Range(n) {
      AlignedQuotient(n, sum - Range(n));
      assert WordsFor(n, size) > 0;
    } else {
      AlignedQuotient(n, sum);
    }
  }

  /** The same count, as the receiving side of the platform computes it. */
  function CeilWords(n: WordBytes, size: nat): nat
    requires size < Range(n)
  {
    var sum := size + (n - 1);
    (if sum >= Range(n) then sum - Range(n) else sum) / n
  }

  lemma CeilIsPayload(n: WordBytes, size: nat)
    requires size < Range(n)
    ensures CeilWords(n, size) == PayloadWords(n, size)
  {
    hide Range;
    var sum := size + (n - 1);
    AlignedQuotient(n, if sum >= Range(n) then sum - Range(n) else sum);
  }

  // ---------------------------------------------------------------------------
  // Payloads as words
  // ---------------------------------------------------------------------------

  /** The payload in whole words, the last one padded with NUL bytes. */
  function Chunk(n: WordBytes, bytes: seq<Byte>): (ws: seq<Word>)
    ensures |ws| == WordsFor(n, |bytes|)
    ensures forall k :: 0 <= k < |ws| ==> |ws[k]| == n
  {
    if bytes == [] then []
    else if |bytes| <= n then [bytes + seq(n - |bytes|, _ => 0)]
    else [bytes[..n]] + Chunk(n, bytes[n..])
  }

  /** Every word has n bytes. */
  predicate Uniform(n: nat, ws: seq<Word>) {
    forall k :: 0 <= k < |ws| ==> |ws[k]| == n
  }

  lemma UniformParts(n: nat, ws: seq<Word>, i: nat)
    requires Uniform(n, ws) && i <= |ws|
    ensures Uniform(n, ws[..i]) && Uniform(n, ws[i..])
  {}

  lemma Regroup<T>(s: seq<T>, k: nat, rest: seq<T>)
    requires k <= |s|
    ensures s[..k] + s[k..] == s && s[..k] + (s[k..] + rest) == s + rest
  {}

  lemma UniformConcat(n: nat, a: seq<Word>, b: seq<Word>)
    requires Uniform(n, a) && Uniform(n, b)
    ensures Uniform(n, a + b)
  {}

  /** A buffer of words seen as bytes. */
  function Flatten(ws: seq<Word>): seq<Byte> {
    if ws == [] then [] else ws[0] + Flatten(ws[1..])
  }

  /** The first size bytes of a word buffer; a size beyond the buffer takes all of it. */
  function BytesOf(ws: seq<Word>, size: nat): seq<Byte> {
    if size <= |Flatten(ws)| then Flatten(ws)[..size] else Flatten(ws)
  }

  lemma {:induction false} ChunkFlattens(n: WordBytes, bytes: seq<Byte>)
    ensures |bytes| <= |Flatten(Chunk(n, bytes))| && Flatten(Chunk(n, bytes))[..|bytes|] == bytes
  {
    if bytes == [] {
    } else if |bytes| <= n {
      assert Flatten(Chunk(n, bytes)) == bytes + seq(n - |bytes|, _ => 0);
    } else {
      ChunkFlattens(n, bytes[n..]);
      assert Flatten(Chunk(n, bytes)) == bytes[..n] + Flatten(Chunk(n, bytes[n..]));
    }
  }

  lemma WordIndex(n: WordBytes, i: nat, q: nat)
    requires n * q <= i < n * q + n
    ensures i / n == q && i % n == i - n * q
  {
    if n == 4 {
      assert i / 4 == q;
    } else {
      assert i / 8 == q;
    }
  }

  lemma {:induction false} FlattenLength(n: nat, ws: seq<Word>)
    requires forall k :: 0 <= k < |ws| ==> |ws[k]| == n
    ensures |Flatten(ws)| == n * |ws|
  {
    if ws != [] {
      FlattenLength(n, ws[1..]);
      assert n * |ws| == n * (|ws| - 1) + n;
    }
  }

  /** Byte i of a word buffer. */
  lemma {:induction false} FlattenAt(n: WordBytes, ws: seq<Word>, q: nat, j: nat)
    requires forall k :: 0 <= k < |ws| ==> |ws[k]| == n
    requires q < |ws| && j < n
    ensures n * q + j < |Flatten(ws)| && Flatten(ws)[n * q + j] == ws[q][j]
  {
    if q > 0 {
      FlattenAt(n, ws[1..], q - 1, j);
      assert n * q + j == n + (n * (q - 1) + j);
    }
  }

  /** Put bytes at the start of a word buffer. */
  method Fill(n: WordBytes, words: array<Word>, bytes: seq<Byte>)
    requires |bytes| <= n * words.Length && forall k :: 0 <= k < words.Length ==> |words[k]| == n
    modifies words
    ensures forall k :: 0 <= k < words.Length ==> |words[k]| == n
    ensures BytesOf(words[..], |bytes|) == bytes
  {
    hide Flatten;
    for i := 0 to |bytes|
      invariant forall k :: 0 <= k < words.Length ==> |words[k]| == n
      invariant forall q, j :: 0 <= q < words.Length && 0 <= j < n && n * q + j < i ==> words[q][j] == bytes[n * q + j]
    {
      var q := i / n;
      assert n * q <= i < n * q + n by { Quotient(n, i); }
      WordIndex(n, i, q);
      assert q < words.Length by { QuotientBelow(n, i, q, words.Length); }
      words[i / n] := words[i / n][i % n := bytes[i]];
      forall q', j | 0 <= q' < words.Length && 0 <= j < n && n * q' + j < i + 1
        ensures words[q'][j] == bytes[n * q' + j]
      {
        if n * q' + j == i { WordIndex(n, i, q'); }
      }
    }
    FlattenLength(n, words[..]);
    forall i | 0 <= i < |bytes| ensures Flatten(words[..])[i] == bytes[i] {
      var q := i / n;
      Quotient(n, i);
      QuotientBelow(n, i, q, words.Length);
      FlattenAt(n, words[..], q, i - n * q);
    }
    assert Flatten(words[..])[..|bytes|] == bytes;
  }

  lemma Quotient(n: WordBytes, i: nat)
    ensures n * (i / n) <= i < n * (i / n) + n
  {
    if n == 4 {
      assert 4 * (i / 4) <= i < 4 * (i / 4) + 4;
    } else {
      assert 8 * (i / 8) <= i < 8 * (i / 8) + 8;
    }
  }

  lemma QuotientBelow(n: WordBytes, i: nat, q: nat, length: nat)
    requires n * q <= i < n * length
    ensures q < length
  {}

  /** A buffer cut to whole words, with the bytes after the payload cleared. */
  ghost predicate Padded(n: WordBytes, was: seq<Word>, ws: seq<Word>, size: nat) {
    && |ws| == WordsFor(n, size) <= |was|
    && (forall k :: 0 <= k < |was| ==> |was[k]| == n)
    && (forall k :: 0 <= k < |ws| ==> |ws[k]| == n)
    && (forall k :: 0 <= k < |ws| - 1 ==> ws[k] == was[k])
    && (|ws| > 0 ==>
          var q := |ws| - 1;
          && n * q < size <= n * q + n
          && forall j :: 0 <= j < n ==> ws[q][j] == if n * q + j < size then was[q][j] else 0)
  }

  lemma PaddedOne(n: WordBytes, was: seq<Word>, ws: seq<Word>, size: nat)
    requires Padded(n, was, ws, size) && 0 < size <= n
    ensures size <= |Flatten(was)| && ws == [Flatten(was)[..size] + seq(n - size, _ => 0)]
  {
    assert |ws| == 1 && Flatten(was) == was[0] + Flatten(was[1..]);
    assert ws[0] == was[0][..size] + seq(n - size, _ => 0);
    assert Flatten(was)[..size] == was[0][..size];
  }

  lemma PaddedTail(n: WordBytes, was: seq<Word>, ws: seq<Word>, size: nat)
    requires Padded(n, was, ws, size) && size > n
    ensures |ws| > 1 && ws[0] == was[0] && |was[0]| == n && Padded(n, was[1..], ws[1..], size - n)
  {
    assert n * (|ws| - 1) == n * (|ws| - 2) + n;
  }

  lemma Associative<T>(x: seq<T>, y: seq<T>, z: seq<T>)
    ensures x + (y + z) == (x + y) + z
  {}

  lemma FlattenHead(ws: seq<Word>)
    requires ws != []
    ensures Flatten(ws) == ws[0] + Flatten(ws[1..])
  {}

  lemma {:induction false} FlattenConcat(a: seq<Word>, b: seq<Word>)
    ensures Flatten(a + b) == Flatten(a) + Flatten(b)
  {
    if a == [] {
      assert a + b == b;
    } else {
      FlattenConcat(a[1..], b);
      hide Flatten;
      FlattenHead(a);
      FlattenHead(a + b);
      assert (a + b)[1..] == a[1..] + b;
      Associative(a[0], Flatten(a[1..]), Flatten(b));
    }
  }

  /** Padding a buffer in place gives the words of its first size bytes. */
  lemma {:induction false} PaddedIsChunk(n: WordBytes, was: seq<Word>, ws: seq<Word>, size: nat)
    requires Padded(n, was, ws, size)
    ensures size <= |Flatten(was)| && ws == Chunk(n, Flatten(was)[..size])
    decreases size
  {
    if size == 0 {
    } else if size <= n {
      PaddedOne(n, was, ws, size);
    } else {
      PaddedTail(n, was, ws, size);
      PaddedIsChunk(n, was[1..], ws[1..], size - n);
      hide Flatten;
      FlattenHead(was);
      var all, rest := Flatten(was)[..size], Flatten(was[1..]);
      assert all[..n] == was[0] && all[n..] == rest[..size - n];
      assert Chunk(n, all) == [all[..n]] + Chunk(n, all[n..]) && ws == [ws[0]] + ws[1..];
    }
  }

  /** The first bytes of a buffer lie in the words that are counted for them. */
  lemma BytesOfStart(n: WordBytes, ws: seq<Word>, size: nat)
    requires Uniform(n, ws) && WordsFor(n, size) <= |ws|
    ensures size <= |Flatten(ws)| && BytesOf(ws[..WordsFor(n, size)], size) == Flatten(ws)[..size]
  {
    hide Flatten, WordsFor;
    var k := WordsFor(n, size);
    RoundUp(n, size);
    FlattenLength(n, ws[..k]);
    FlattenConcat(ws[..k], ws[k..]);
    assert ws[..k] + ws[k..] == ws;
  }

  /**
   The padding loop of both senders: the bytes from the payload's end to the next word are cleared.
   A size that wraps to no payload words at all is beyond the last byte to clear.
   */
  method Pad(n: WordBytes, words: array<Word>, size: nat)
    requires size < Range(n) && PayloadWords(n, size) <= words.Length
    requires forall k :: 0 <= k < words.Length ==> |words[k]| == n
    modifies words
    ensures forall k :: 0 <= k < words.Length ==> |words[k]| == n
    ensures words[..PayloadWords(n, size)] == Chunk(n, BytesOf(old(words[..PayloadWords(n, size)]), size))
  {
    hide Chunk, Flatten, PayloadWords, Range, WordsFor;
    var payloadWords := PayloadWords(n, size);
    var paddedBytes := payloadWords * n;
    ghost var was, q := words[..], payloadWords - 1;
    PayloadWordsExact(n, size);
    RoundUp(n, size);
    var i := size;
    while i < paddedBytes
      invariant size <= i && (size <= paddedBytes ==> i <= paddedBytes)
      invariant forall k :: 0 <= k < words.Length ==> |words[k]| == n
      invariant forall k :: 0 <= k < words.Length && k != q ==> words[k] == was[k]
      invariant q >= 0 ==> forall j :: 0 <= j < n ==> words[q][j] == if size <= n * q + j < i then 0 else was[q][j]
    {
      WordIndex(n, i, q);
      words[i / n] := words[i / n][i % n := 0];
      i := i + 1;
    }
    if size <= Range(n) - n {
      assert Padded(n, was[..payloadWords], words[..payloadWords], size);
      PaddedIsChunk(n, was[..payloadWords], words[..payloadWords], size);
    } else {
      NoPayload(n, size);
    }
  }

  lemma NoPayload(n: WordBytes, size: nat)
    ensures Chunk(n, BytesOf([], size)) == []
  {}

  // ---------------------------------------------------------------------------
  // Streams of frames
  // ---------------------------------------------------------------------------

  function EncodeFrame(n: WordBytes, payload: seq<Byte>): (ws: seq<Word>)
    ensures |ws| == 1 + WordsFor(n, |payload|)
  {
    [ToWord(n, |payload|)] + Chunk(n, payload)
  }

  function EncodeAll(n: WordBytes, frames: seq<seq<Byte>>): seq<Word> {
    if frames == [] then [] else EncodeFrame(n, frames[0]) + EncodeAll(n, frames[1..])
  }

  lemma {:induction false} EncodeAppend(n: WordBytes, frames: seq<seq<Byte>>, last: seq<Byte>)
    ensures EncodeAll(n, frames + [last]) == EncodeAll(n, frames) + EncodeFrame(n, last)
  {
    hide EncodeFrame;
    var all := frames + [last];
    if frames == [] {
      assert all == [last] && EncodeAll(n, all[1..]) == [];
    } else {
      EncodeAppend(n, frames[1..], last);
      assert all[1..] == frames[1..] + [last] && all[0] == frames[0];
      var first, rest, end := EncodeFrame(n, frames[0]), EncodeAll(n, frames[1..]), EncodeFrame(n, last);
      assert first + (rest + end) == (first + rest) + end;
    }
  }

  /** What a receiver makes of one complete frame. */
  datatype Message = Received(bytes: seq<Byte>) | TooLarge

  /** What a receiver with a buffer of maxWords makes of a stream: one message per complete frame. */
  function Decode(n: WordBytes, maxWords: nat, ws: seq<Word>): seq<Message>
    requires Uniform(n, ws)
    decreases |ws|
  {
    if ws == [] then []
    else
      ToFromWord(ws[0]);
      var size := FromWord(ws[0]);
      var k := PayloadWords(n, size);
      if |ws| < 1 + k then []
      else [if k > maxWords then TooLarge else Received(BytesOf(ws[1..1 + k], size))] + Decode(n, maxWords, ws[1 + k..])
  }

  /** A stream that ends inside its first frame yields no message; a complete frame comes off the front. */
  lemma DecodeStep(n: WordBytes, maxWords: nat, frame: seq<Word>, rest: seq<Word>)
    requires frame != [] && Uniform(n, frame)
    requires Uniform(n, rest)
    ensures FromWord(frame[0]) < Range(n)
    ensures var size := FromWord(frame[0]);
            var k := PayloadWords(n, size);
            && (|frame| == 1 + k ==>
                  Decode(n, maxWords, frame + rest)
                  == [if k > maxWords then TooLarge else Received(BytesOf(frame[1..], size))]
                     + Decode(n, maxWords, rest))
            && (|frame| < 1 + k ==> Decode(n, maxWords, frame) == [])
  {
    hide FromWord, PayloadWords, BytesOf, Range;
    ToFromWord(frame[0]);
    assert (frame + rest)[0] == frame[0];
    var k := PayloadWords(n, FromWord(frame[0]));
    if |frame| == 1 + k {
      assert (frame + rest)[1..1 + k] == frame[1..] && (frame + rest)[1 + k..] == rest;
    }
  }

  /** The stream consists of complete frames. */
  predicate Whole(n: WordBytes, ws: seq<Word>)
    requires Uniform(n, ws)
    decreases |ws|
  {
    ws == [] ||
    (ToFromWord(ws[0]);
     var k := PayloadWords(n, FromWord(ws[0]));
     |ws| >= 1 + k && Whole(n, ws[1 + k..]))
  }

  /** The length of the first frame of a stream of complete frames. */
  function FirstLength(n: WordBytes, ws: seq<Word>): (k: nat)
    requires ws != [] && Uniform(n, ws) && Whole(n, ws)
    ensures 0 < k <= |ws| && Whole(n, ws[k..])
    ensures FromWord(ws[..k][0]) < Range(n) && k == 1 + PayloadWords(n, FromWord(ws[..k][0]))
  {
    ToFromWord(ws[0]);
    1 + PayloadWords(n, FromWord(ws[0]))
  }

  lemma DecodeFrame(n: WordBytes, maxWords: nat, frame: seq<Word>, tail: seq<Word>, rest: seq<Word>)
    requires Uniform(n, frame)
    requires Uniform(n, tail)
    requires Uniform(n, rest)
    requires frame != [] && FromWord(frame[0]) < Range(n) && |frame| == 1 + PayloadWords(n, FromWord(frame[0]))
    requires Decode(n, maxWords, tail + rest) == Decode(n, maxWords, tail) + Decode(n, maxWords, rest)
    ensures Decode(n, maxWords, frame + (tail + rest)) == Decode(n, maxWords, frame + tail) + Decode(n, maxWords, rest)
  {
    hide *;
    UniformConcat(n, tail, rest);
    DecodeStep(n, maxWords, frame, tail);
    DecodeStep(n, maxWords, frame, tail + rest);
  }

  lemma {:induction false} DecodeWhole(n: WordBytes, maxWords: nat, ws: seq<Word>, rest: seq<Word>)
    requires Uniform(n, ws)
    requires Uniform(n, rest)
    requires Whole(n, ws)
    ensures Decode(n, maxWords, ws + rest) == Decode(n, maxWords, ws) + Decode(n, maxWords, rest)
    decreases |ws|
  {
    hide BytesOf, FirstLength, FromWord, PayloadWords, Range, Uniform, Whole;
    if ws == [] {
      assert ws + rest == rest && Decode(n, maxWords, ws) == [];
    } else {
      var k := FirstLength(n, ws);
      UniformParts(n, ws, k);
      Regroup(ws, k, rest);
      DecodeWhole(n, maxWords, ws[k..], rest);
      DecodeFrame(n, maxWords, ws[..k], ws[k..], rest);
    }
  }

  lemma {:induction false} WholeConcat(n: WordBytes, ws: seq<Word>, rest: seq<Word>)
    requires Uniform(n, ws)
    requires Uniform(n, rest)
    requires Whole(n, ws) && Whole(n, rest)
    ensures Whole(n, ws + rest)
    decreases |ws|
  {
    hide FromWord, PayloadWords, Range;
    if ws == [] {
      assert ws + rest == rest;
    } else {
      ToFromWord(ws[0]);
      var k := PayloadWords(n, FromWord(ws[0]));
      assert (ws + rest)[0] == ws[0] && (ws + rest)[1 + k..] == ws[1 + k..] + rest;
      WholeConcat(n, ws[1 + k..], rest);
    }
  }

  // ---------------------------------------------------------------------------
  // Answering a stream
  // ---------------------------------------------------------------------------

  /** The words that answer one complete frame: header and payload again if it fits, padded afresh. */
  function Answer(n: WordBytes, maxWords: nat, frame: seq<Word>): seq<Word>
    requires frame != [] && Uniform(n, frame)
  {
    ToFromWord(frame[0]);
    var size := FromWord(frame[0]);
    if PayloadWords(n, size) > maxWords then [] else [frame[0]] + Chunk(n, BytesOf(frame[1..], size))
  }

  /** What an echo with a buffer of maxWords makes of a stream: an answer to each complete frame. */
  function Answers(n: WordBytes, maxWords: nat, ws: seq<Word>): seq<Word>
    requires Uniform(n, ws)
    decreases |ws|
  {
    if ws == [] then []
    else
      ToFromWord(ws[0]);
      var k := PayloadWords(n, FromWord(ws[0]));
      if |ws| < 1 + k then [] else Answer(n, maxWords, ws[..1 + k]) + Answers(n, maxWords, ws[1 + k..])
  }

  lemma AnswersStep(n: WordBytes, maxWords: nat, frame: seq<Word>, rest: seq<Word>)
    requires frame != [] && Uniform(n, frame)
    requires Uniform(n, rest)
    ensures FromWord(frame[0]) < Range(n)
    ensures var k := PayloadWords(n, FromWord(frame[0]));
            && (|frame| == 1 + k ==>
                  Answers(n, maxWords, frame + rest) == Answer(n, maxWords, frame) + Answers(n, maxWords, rest))
            && (|frame| < 1 + k ==> Answers(n, maxWords, frame) == [])
  {
    hide FromWord, PayloadWords, Answer, Range;
    ToFromWord(frame[0]);
    assert (frame + rest)[0] == frame[0];
    var k := PayloadWords(n, FromWord(frame[0]));
    if |frame| == 1 + k {
      assert (frame + rest)[..1 + k] == frame && (frame + rest)[1 + k..] == rest;
    }
  }

  lemma AnswersFrame(n: WordBytes, maxWords: nat, frame: seq<Word>, tail: seq<Word>, rest: seq<Word>)
    requires Uniform(n, frame)
    requires Uniform(n, tail)
    requires Uniform(n, rest)
    requires frame != [] && FromWord(frame[0]) < Range(n) && |frame| == 1 + PayloadWords(n, FromWord(frame[0]))
    requires Answers(n, maxWords, tail + rest) == Answers(n, maxWords, tail) + Answers(n, maxWords, rest)
    ensures Answers(n, maxWords, frame + (tail + rest))
         == Answers(n, maxWords, frame + tail) + Answers(n, maxWords, rest)
  {
    hide *;
    UniformConcat(n, tail, rest);
    AnswersStep(n, maxWords, frame, tail);
    AnswersStep(n, maxWords, frame, tail + rest);
  }

  /** Complete frames are answered one by one, whatever follows them. */
  lemma {:induction false} AnswersWhole(n: WordBytes, maxWords: nat, ws: seq<Word>, rest: seq<Word>)
    requires Uniform(n, ws)
    requires Uniform(n, rest)
    requires Whole(n, ws)
    ensures Answers(n, maxWords, ws + rest) == Answers(n, maxWords, ws) + Answers(n, maxWords, rest)
    decreases |ws|
  {
    hide Answer, FirstLength, FromWord, PayloadWords, Range, Uniform, Whole;
    if ws == [] {
      assert ws + rest == rest && Answers(n, maxWords, ws) == [];
    } else {
      var k := FirstLength(n, ws);
      UniformParts(n, ws, k);
      Regroup(ws, k, rest);
      AnswersWhole(n, maxWords, ws[k..], rest);
      AnswersFrame(n, maxWords, ws[..k], ws[k..], rest);
    }
  }

  // ---------------------------------------------------------------------------
  // Receivers
  // ---------------------------------------------------------------------------

  /** What a receiver returns for one frame, or that the run was cut while it waited. */
  datatype ReadResult = Cut | Frame(ok: bool, size: nat)

  /** A result tells what the receiver makes of the words popped for it. */
  ghost predicate Reports(n: WordBytes, maxWords: nat, r: ReadResult, taken: seq<Word>, buf: seq<Word>) {
    if taken == [] then r.Cut?
    else
      |taken[0]| == n &&
      (ToFromWord(taken[0]);
       var size := FromWord(taken[0]);
       var k := PayloadWords(n, size);
       match r
       case Cut => |taken| < 1 + k
       case Frame(ok, sz) =>
         && |taken| == 1 + k && (ok <==> k <= maxWords)
         && (if ok then k <= |buf| && sz == size && buf[..k] == taken[1..] else sz == 0))
  }

  /** The message in the buffer after a result. */
  function Shown(n: WordBytes, maxWords: nat, ok: bool, size: nat, buf: seq<Word>): Message
    requires size < Range(n) && (ok ==> PayloadWords(n, size) <= |buf|)
  {
    if ok then Received(BytesOf(buf[..PayloadWords(n, size)], size)) else TooLarge
  }

  /** A result adds one message to what the stream decodes to, or none if it was cut. */
  lemma ReportDecodes(n: WordBytes, maxWords: nat, r: ReadResult, taken: seq<Word>, buf: seq<Word>)
    requires Reports(n, maxWords, r, taken, buf) && Uniform(n, taken)
    ensures r.Cut? ==> Decode(n, maxWords, taken) == []
    ensures r.Frame? ==>
              && r.size < Range(n) && (r.ok ==> PayloadWords(n, r.size) <= |buf|) && Whole(n, taken)
              && Decode(n, maxWords, taken) == [Shown(n, maxWords, r.ok, r.size, buf)]
  {
    hide FromWord, PayloadWords, BytesOf, Range;
    if taken == [] {
    } else {
      DecodeStep(n, maxWords, taken, []);
      assert taken + [] == taken;
      assert Decode(n, maxWords, []) == [];
      var k := PayloadWords(n, FromWord(taken[0]));
      if |taken| == 1 + k {
        assert taken[1 + k..] == [];
      }
    }
  }

  // ---------------------------------------------------------------------------
  // Decoding what was encoded
  // ---------------------------------------------------------------------------

  /** A payload whose size survives the word arithmetic of both sides. */
  predicate Sendable(n: WordBytes, payload: seq<Byte>) {
    |payload| <= Range(n) - n
  }

  function Expected(n: WordBytes, maxWords: nat, frame: seq<Byte>): Message {
    if WordsFor(n, |frame|) > maxWords then TooLarge else Received(frame)
  }

  function ExpectedAll(n: WordBytes, maxWords: nat, frames: seq<seq<Byte>>): (ms: seq<Message>)
    ensures |ms| == |frames|
  {
    seq(|frames|, i requires 0 <= i < |frames| => Expected(n, maxWords, frames[i]))
  }

  lemma {:induction false} EncodeAllWords(n: WordBytes, frames: seq<seq<Byte>>)
    ensures Uniform(n, EncodeAll(n, frames))
  {
    if frames != [] { EncodeAllWords(n, frames[1..]); }
  }

  /** The first frame of a stream is read back byte for byte, and the next word is the next header. */
  lemma DecodeFirst(n: WordBytes, maxWords: nat, frame: seq<Byte>, rest: seq<Word>)
    requires Sendable(n, frame) && Uniform(n, rest)
    ensures var ws := EncodeFrame(n, frame) + rest;
            Decode(n, maxWords, ws) == [Expected(n, maxWords, frame)] + Decode(n, maxWords, rest)
  {
    var ws := EncodeFrame(n, frame) + rest;
    var k := WordsFor(n, |frame|);
    hide Chunk, Flatten, FromWord, PayloadWords, Range, ToWord, Uniform, WordsFor;
    FromToWord(n, |frame|);
    PayloadWordsExact(n, |frame|);
    ChunkFlattens(n, frame);
    assert ws[0] == ToWord(n, |frame|) && ws[1..1 + k] == Chunk(n, frame) && ws[1 + k..] == rest;
  }

  /**
   Whatever part of a stream of frames has arrived, the receiver has decoded a prefix of the frames,
   byte for byte, and has drained those too large for its buffer.
   */
  lemma {:induction false} DecodePrefix(n: WordBytes, maxWords: nat, frames: seq<seq<Byte>>, ws: seq<Word>)
    requires forall i :: 0 <= i < |frames| ==> Sendable(n, frames[i])
    requires ws <= EncodeAll(n, frames)
    ensures Uniform(n, ws)
    ensures Decode(n, maxWords, ws) <= ExpectedAll(n, maxWords, frames)
    ensures ws == EncodeAll(n, frames) ==> Decode(n, maxWords, ws) == ExpectedAll(n, maxWords, frames)
    decreases |frames|
  {
    EncodeAllWords(n, frames);
    NothingStreamed(n, maxWords);
    hide *;
    UniformParts(n, EncodeAll(n, frames), |ws|);
    assert EncodeAll(n, frames)[..|ws|] == ws;
    if frames == [] {
      assert ws == [];
    } else {
      var frame, first, more := frames[0], EncodeFrame(n, frames[0]), EncodeAll(n, frames[1..]);
      StreamFirst(n, maxWords, frames);
      if |ws| < |first| {
        assert ws == first[..|ws|];
        Incomplete(n, maxWords, frame, ws);
      } else {
        var rest := ws[|first|..];
        UniformParts(n, ws, |first|);
        assert ws == first + rest && rest == more[..|rest|];
        DecodePrefix(n, maxWords, frames[1..], rest);
        DecodeFirst(n, maxWords, frame, rest);
      }
    }
  }

  lemma NothingStreamed(n: WordBytes, maxWords: nat)
    ensures EncodeAll(n, []) == [] && Decode(n, maxWords, []) == [] && Answers(n, maxWords, []) == []
    ensures ExpectedAll(n, maxWords, []) == []
  {}

  /** A stream of frames begins with the first one. */
  lemma StreamFirst(n: WordBytes, maxWords: nat, frames: seq<seq<Byte>>)
    requires frames != []
    ensures EncodeAll(n, frames) == EncodeFrame(n, frames[0]) + EncodeAll(n, frames[1..])
    ensures ExpectedAll(n, maxWords, frames)
         == [Expected(n, maxWords, frames[0])] + ExpectedAll(n, maxWords, frames[1..])
  {
    hide EncodeFrame, Expected;
  }

  lemma Incomplete(n: WordBytes, maxWords: nat, frame: seq<Byte>, ws: seq<Word>)
    requires Sendable(n, frame) && ws < EncodeFrame(n, frame) && Uniform(n, ws)
    ensures Decode(n, maxWords, ws) == [] && Answers(n, maxWords, ws) == []
  {
    hide Answer, BytesOf, Chunk, FromWord, PayloadWords, Range, ToWord, Uniform, WordsFor;
    FromToWord(n, |frame|);
    PayloadWordsExact(n, |frame|);
  }

  // ---------------------------------------------------------------------------
  // Through the echo firmware and back
  // ---------------------------------------------------------------------------

  /** The payloads among the messages that fitted the buffer. */
  function Payloads(ms: seq<Message>): seq<seq<Byte>> {
    if ms == [] then []
    else (if ms[0].Received? then [ms[0].bytes] else []) + Payloads(ms[1..])
  }

  function Fitting(n: WordBytes, maxWords: nat, frames: seq<seq<Byte>>): seq<seq<Byte>> {
    if frames == [] then []
    else (if WordsFor(n, |frames[0]|) <= maxWords then [frames[0]] else []) + Fitting(n, maxWords, frames[1..])
  }

  lemma {:induction false} FittingPayloads(n: WordBytes, maxWords: nat, frames: seq<seq<Byte>>)
    requires forall i :: 0 <= i < |frames| ==> Sendable(n, frames[i])
    ensures Payloads(ExpectedAll(n, maxWords, frames)) == Fitting(n, maxWords, frames)
    ensures var fit := Fitting(n, maxWords, frames);
            forall i :: 0 <= i < |fit| ==> Sendable(n, fit[i]) && WordsFor(n, |fit[i]|) <= maxWords
  {
    if frames != [] {
      FittingPayloads(n, maxWords, frames[1..]);
      assert ExpectedAll(n, maxWords, frames)[1..] == ExpectedAll(n, maxWords, frames[1..]);
    }
  }

  lemma {:induction false} PayloadsPrefix(a: seq<Message>, b: seq<Message>)
    requires a <= b
    ensures Payloads(a) <= Payloads(b)
  {
    if a != [] { PayloadsPrefix(a[1..], b[1..]); }
  }

  lemma {:induction false} EncodePrefix(n: WordBytes, a: seq<seq<Byte>>, b: seq<seq<Byte>>)
    requires a <= b
    ensures EncodeAll(n, a) <= EncodeAll(n, b)
  {
    if a != [] { EncodePrefix(n, a[1..], b[1..]); }
  }

  /** The first frame of a stream is answered by itself, or by nothing if it is too large. */
  lemma AnswerFirst(n: WordBytes, maxWords: nat, frame: seq<Byte>, rest: seq<Word>)
    requires Sendable(n, frame) && Uniform(n, rest)
    ensures Uniform(n, EncodeFrame(n, frame) + rest)
    ensures Answers(n, maxWords, EncodeFrame(n, frame) + rest)
         == (if WordsFor(n, |frame|) <= maxWords then EncodeFrame(n, frame) else []) + Answers(n, maxWords, rest)
  {
    var ws := EncodeFrame(n, frame);
    assert Uniform(n, ws);
    hide Answers, Chunk, Flatten, FromWord, PayloadWords, Range, ToWord, WordsFor;
    FromToWord(n, |frame|);
    PayloadWordsExact(n, |frame|);
    ChunkFlattens(n, frame);
    assert ws[0] == ToWord(n, |frame|) && ws[1..] == Chunk(n, frame);
    AnswersStep(n, maxWords, ws, rest);
  }

  /**
   Whatever part of a stream of frames has arrived, the answers to it are the frames among it that
   fit the buffer, encoded again.
   */
  lemma {:induction false} AnswersOfEncoded(n: WordBytes, maxWords: nat, frames: seq<seq<Byte>>, ws: seq<Word>)
    requires forall i :: 0 <= i < |frames| ==> Sendable(n, frames[i])
    requires ws <= EncodeAll(n, frames)
    ensures Uniform(n, ws)
    ensures Answers(n, maxWords, ws) == EncodeAll(n, Payloads(Decode(n, maxWords, ws)))
    decreases |frames|
  {
    EncodeAllWords(n, frames);
    NothingStreamed(n, maxWords);
    assert Payloads([]) == [];
    hide *;
    UniformParts(n, EncodeAll(n, frames), |ws|);
    assert EncodeAll(n, frames)[..|ws|] == ws;
    if frames == [] {
      assert ws == [];
    } else {
      var frame, first, more := frames[0], EncodeFrame(n, frames[0]), EncodeAll(n, frames[1..]);
      StreamFirst(n, maxWords, frames);
      if |ws| < |first| {
        assert ws == first[..|ws|];
        Incomplete(n, maxWords, frame, ws);
      } else {
        var rest := ws[|first|..];
        UniformParts(n, ws, |first|);
        assert ws == first + rest && rest == more[..|rest|];
        AnswersOfEncoded(n, maxWords, frames[1..], rest);
        DecodeFirst(n, maxWords, frame, rest);
        AnswerFirst(n, maxWords, frame, rest);
        PayloadsFirst(n, maxWords, frame, Decode(n, maxWords, rest));
      }
    }
  }

  lemma PayloadsFirst(n: WordBytes, maxWords: nat, frame: seq<Byte>, ms: seq<Message>)
    ensures EncodeAll(n, Payloads([Expected(n, maxWords, frame)] + ms))
         == (if WordsFor(n, |frame|) <= maxWords then EncodeFrame(n, frame) else []) + EncodeAll(n, Payloads(ms))
  {
    hide EncodeFrame, WordsFor;
    var all := [Expected(n, maxWords, frame)] + ms;
    assert all[1..] == ms && all[0] == Expected(n, maxWords, frame);
    if WordsFor(n, |frame|) <= maxWords {
      assert ([frame] + Payloads(ms))[1..] == Payloads(ms);
    } else {
      assert Payloads(all) == Payloads(ms);
    }
  }

  /**
   Platform to echo and back, at any moment of any run: if the platform has pushed part of the
   frames it is sending, the echo has popped part of that and pushed part of its answers, and the
   platform has popped part of those, then what the platform decodes is a prefix of the frames that
   fit the buffers, byte for byte and in order; and all of them once everything has arrived.
   */
  lemma EndToEnd(n: WordBytes, maxWords: nat, frames: seq<seq<Byte>>,
                 pushed: seq<Word>, echoed: seq<Word>, answered: seq<Word>, popped: seq<Word>)
    requires forall i :: 0 <= i < |frames| ==> Sendable(n, frames[i])
    requires echoed <= pushed <= EncodeAll(n, frames)
    requires Uniform(n, echoed)
    requires popped <= answered <= Answers(n, maxWords, echoed)
    ensures Uniform(n, popped)
    ensures Payloads(Decode(n, maxWords, popped)) <= Fitting(n, maxWords, frames)
    ensures forall i :: 0 <= i < |Decode(n, maxWords, popped)| ==> Decode(n, maxWords, popped)[i].Received?
    ensures echoed == EncodeAll(n, frames) && popped == Answers(n, maxWords, echoed) ==>
            Payloads(Decode(n, maxWords, popped)) == Fitting(n, maxWords, frames)
  {
    hide Answers, Decode, EncodeAll, Fitting, Payloads, Sendable, Uniform, WordsFor;
    AnswersOfEncoded(n, maxWords, frames, echoed);
    var fit := Fitting(n, maxWords, frames);
    DecodePrefix(n, maxWords, frames, echoed);
    PayloadsPrefix(Decode(n, maxWords, echoed), ExpectedAll(n, maxWords, frames));
    FittingPayloads(n, maxWords, frames);
    EncodePrefix(n, Payloads(Decode(n, maxWords, echoed)), fit);
    DecodePrefix(n, maxWords, fit, popped);
    PayloadsPrefix(Decode(n, maxWords, popped), ExpectedAll(n, maxWords, fit));
    FittingPayloads(n, maxWords, fit);
    FittingTwice(n, maxWords, frames);
    assert forall i :: 0 <= i < |fit| ==> ExpectedAll(n, maxWords, fit)[i].Received?;
  }

  lemma {:induction false} FittingTwice(n: WordBytes, maxWords: nat, frames: seq<seq<Byte>>)
    ensures Fitting(n, maxWords, Fitting(n, maxWords, frames)) == Fitting(n, maxWords, frames)
  {
    if frames != [] {
      FittingTwice(n, maxWords, frames[1..]);
      if WordsFor(n, |frames[0]|) <= maxWords {
        assert Fitting(n, maxWords, frames)[1..] == Fitting(n, maxWords, frames[1..]);
      } else {
        assert Fitting(n, maxWords, frames) == Fitting(n, maxWords, frames[1..]);
      }
    }
  }
}
