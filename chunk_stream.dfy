/**
  The bounded-memory body writer of `readFileToSocket`: the loop that moves a
  file to the network connection in pieces of at most the chunk size, and the
  arithmetic of `size_t` that it runs on.
*/
module ChunkStream {
  import opened Basics

  /** `size_t` on the ESP32 is 32 bits wide. */
  const SizeModulus := 0x1_0000_0000

  /** Conversion to `size_t`: reduction modulo 2^32, C's rule for unsigned conversions. */
  function SizeT(i: int): (s: nat)
    ensures s < SizeModulus
    ensures i >= 0 ==> s <= i
    ensures 0 <= i < SizeModulus ==> s == i
    ensures -SizeModulus <= i < 0 ==> s == i + SizeModulus
  {
    i % SizeModulus
  }

  /** A C `int` on the ESP32: 32 bits, two's complement. */
  type CInt = i: int | -0x8000_0000 <= i < 0x8000_0000

  /** An `int` converted to `size_t`: negative values wrap around to the top of the range. */
  function IntToSize(i: CInt): (s: nat)
    ensures s < SizeModulus
    ensures i >= 0 ==> s == i
  {
    if i < 0 then i + SizeModulus else i
  }

  /** `a -= b` on two `size_t` values: the difference, wrapped around when `b` is the larger. */
  function SizeSub(a: nat, b: nat): (d: nat)
    requires a < SizeModulus && b < SizeModulus
    ensures d < SizeModulus
    ensures b <= a ==> d == a - b
  {
    if b <= a then a - b else a - b + SizeModulus
  }

  /** Both helpers agree with the modular conversion. */
  lemma SizeArithmeticIsModular(i: CInt, a: nat, b: nat)
    requires a < SizeModulus && b < SizeModulus
    ensures IntToSize(i) == SizeT(i)
    ensures SizeSub(a, b) == SizeT(a - b)
  {
  }

  function Flatten(chunks: seq<seq<byte>>): seq<byte>
  {
    if chunks == [] then [] else chunks[0] + Flatten(chunks[1..])
  }

  /** `ceil(a / b)`: the least `k` with `a <= k * b`. */
  function CeilDiv(a: nat, b: nat): (k: nat)
    requires b > 0
    ensures a == 0 <==> k == 0
    ensures a <= k * b
    ensures k > 0 ==> (k - 1) * b < a
    decreases a
  {
    if a == 0 then 0 else 1 + CeilDiv(a - Min(a, b), b)
  }

  /**
    The reference cut of a content, from position `pos` on, into the pieces the
    loop sends when the sink takes everything: they concatenate to the rest of
    the content, and there are `ceil(S / C)` of them (`ChunkCount`), all of `C`
    bytes except the last, which holds between 1 and `C` (`ChunkSizes`).
  */
  function Chunks(content: seq<byte>, pos: nat, chunkSize: nat): (cs: seq<seq<byte>>)
    requires chunkSize > 0 && pos <= |content|
    decreases |content| - pos
  {
    if pos == |content| then []
    else
      var n := Min(|content| - pos, chunkSize);
      [content[pos..pos + n]] + Chunks(content, pos + n, chunkSize)
  }

  /** The reference pieces concatenate to the rest of the content. */
  lemma {:induction false} ChunksFlatten(content: seq<byte>, pos: nat, chunkSize: nat)
    requires chunkSize > 0 && pos <= |content|
    ensures Flatten(Chunks(content, pos, chunkSize)) == content[pos..]
    decreases |content| - pos
  {
    if pos < |content| {
      var n := Min(|content| - pos, chunkSize);
      var cs := Chunks(content, pos, chunkSize);
      ChunksFlatten(content, pos + n, chunkSize);
      assert cs[1..] == Chunks(content, pos + n, chunkSize);
      assert content[pos..] == content[pos..pos + n] + content[pos + n..];
    }
  }

  /** There are `ceil(S / C)` reference pieces. */
  lemma {:induction false} ChunkCount(content: seq<byte>, pos: nat, chunkSize: nat)
    requires chunkSize > 0 && pos <= |content|
    ensures |Chunks(content, pos, chunkSize)| == CeilDiv(|content| - pos, chunkSize)
    decreases |content| - pos
  {
    if pos < |content| {
      ChunkCount(content, pos + Min(|content| - pos, chunkSize), chunkSize);
    }
  }

  /** The sizes of the reference pieces: `C` bytes each, except the last, which holds between 1 and `C`. */
  lemma {:induction false} ChunkSizes(content: seq<byte>, pos: nat, chunkSize: nat)
    requires chunkSize > 0 && pos <= |content|
    ensures var cs := Chunks(content, pos, chunkSize);
      forall i :: 0 <= i < |cs| - 1 ==> |cs[i]| == chunkSize
    ensures var cs := Chunks(content, pos, chunkSize);
      |cs| > 0 ==> 1 <= |cs[|cs| - 1]| <= chunkSize
    decreases |content| - pos
  {
    if pos < |content| {
      var n := Min(|content| - pos, chunkSize);
      var cs, tail := Chunks(content, pos, chunkSize), Chunks(content, pos + n, chunkSize);
      assert cs == [content[pos..pos + n]] + tail;
      ChunkSizes(content, pos + n, chunkSize);
      if tail != [] {
        assert n == chunkSize;
        assert cs[|cs| - 1] == tail[|tail| - 1];
      }
      forall i | 0 <= i < |cs| - 1
        ensures |cs[i]| == chunkSize
      {
        if i > 0 { assert cs[i] == tail[i - 1]; }
      }
    }
  }

  /** Bytes read on one turn: `min(left, chunkSize)`, fewer once the file is exhausted (what `gcount` reports). */
  function ReadSize(size: nat, pos: nat, left: nat, chunkSize: nat): (got: nat)
    requires pos <= size
    ensures got <= left && got <= chunkSize && pos + got <= size
    ensures got == left || got == chunkSize || pos + got == size
  {
    Min(Min(left, chunkSize), size - pos)
  }

  /** The counters of the chunk loop when it stops: bytes still owed, file position, turns taken. */
  datatype Counters = Counters(left: nat, pos: nat, turns: nat)

  /**
    The chunk loop on a file of `size` bytes. While bytes are owed it reads
    `ReadSize` bytes at `pos`, hands them to the sink and subtracts the
    sink's reply, converted to `size_t`, from the bytes owed. `replies` are
    the sink's successive return values; the model also stops when they run
    out. The buffers handed over are `Sent`.
  */
  function Pump(size: nat, pos: nat, left: nat, replies: seq<CInt>, chunkSize: nat): (r: Counters)
    requires pos <= size && left < SizeModulus
    ensures pos <= r.pos <= size && r.left < SizeModulus && r.turns <= |replies|
    decreases |replies|
  {
    if left == 0 || replies == [] then
      Counters(left, pos, 0)
    else
      var got := ReadSize(size, pos, left, chunkSize);
      var rest := Pump(size, pos + got, SizeSub(left, IntToSize(replies[0])), replies[1..], chunkSize);
      Counters(rest.left, rest.pos, rest.turns + 1)
  }

  /** The buffers the chunk loop hands to the sink, one per turn: the bytes read on that turn. */
  function Sent(content: seq<byte>, pos: nat, left: nat, replies: seq<CInt>, chunkSize: nat): (sent: seq<seq<byte>>)
    requires pos <= |content| && left < SizeModulus
    ensures |sent| <= |replies|
    decreases |replies|
  {
    if left == 0 || replies == [] then
      []
    else
      var got := ReadSize(|content|, pos, left, chunkSize);
      [content[pos..pos + got]] + Sent(content, pos + got, SizeSub(left, IntToSize(replies[0])), replies[1..], chunkSize)
  }

  /** One turn of the loop, as the imperative loop takes it. */
  lemma PumpTurn(content: seq<byte>, pos: nat, left: nat, replies: seq<CInt>, chunkSize: nat)
    requires pos <= |content| && 0 < left < SizeModulus && replies != []
    ensures var got := ReadSize(|content|, pos, left, chunkSize);
      var left' := SizeSub(left, IntToSize(replies[0]));
      && Sent(content, pos, left, replies, chunkSize) == [content[pos..pos + got]] + Sent(content, pos + got, left', replies[1..], chunkSize)
      && Pump(|content|, pos, left, replies, chunkSize).left == Pump(|content|, pos + got, left', replies[1..], chunkSize).left
  {
  }

  /** One buffer per turn of the loop. */
  lemma {:induction false} SentTurns(content: seq<byte>, pos: nat, left: nat, replies: seq<CInt>, chunkSize: nat)
    requires pos <= |content| && left < SizeModulus
    ensures |Sent(content, pos, left, replies, chunkSize)| == Pump(|content|, pos, left, replies, chunkSize).turns
    decreases |replies|
  {
    if left > 0 && replies != [] {
      var got := ReadSize(|content|, pos, left, chunkSize);
      SentTurns(content, pos + got, SizeSub(left, IntToSize(replies[0])), replies[1..], chunkSize);
    }
  }

  /** The loop ends either owing nothing or with every reply of the sink used. */
  lemma {:induction false} PumpStops(size: nat, pos: nat, left: nat, replies: seq<CInt>, chunkSize: nat)
    requires pos <= size && left < SizeModulus
    ensures var r := Pump(size, pos, left, replies, chunkSize);
      r.left == 0 || r.turns == |replies|
    decreases |replies|
  {
    if left > 0 && replies != [] {
      var got := ReadSize(size, pos, left, chunkSize);
      PumpStops(size, pos + got, SizeSub(left, IntToSize(replies[0])), replies[1..], chunkSize);
    }
  }

  /** The sink never reports an error and never claims more than it was given, on any turn the loop takes. */
  predicate WellBehaved(size: nat, pos: nat, left: nat, replies: seq<CInt>, chunkSize: nat)
    requires pos <= size && left < SizeModulus
    decreases |replies|
  {
    left == 0 || replies == [] ||
    (var got := ReadSize(size, pos, left, chunkSize);
     0 <= replies[0] <= got && WellBehaved(size, pos + got, SizeSub(left, IntToSize(replies[0])), replies[1..], chunkSize))
  }

  /** On every turn the loop takes, the sink takes the whole buffer. */
  predicate AllAccepted(size: nat, pos: nat, left: nat, replies: seq<CInt>, chunkSize: nat)
    requires pos <= size && left < SizeModulus
    decreases |replies|
  {
    left == 0 || replies == [] ||
    (var got := ReadSize(size, pos, left, chunkSize);
     replies[0] == got && AllAccepted(size, pos + got, SizeSub(left, IntToSize(replies[0])), replies[1..], chunkSize))
  }

  /** `WellBehaved` read buffer by buffer: reply `i` is between 0 and the size of buffer `i`. */
  lemma WellBehavedPointwise(content: seq<byte>, pos: nat, left: nat, replies: seq<CInt>, chunkSize: nat)
    requires pos <= |content| && left < SizeModulus
    ensures var sent := Sent(content, pos, left, replies, chunkSize);
      WellBehaved(|content|, pos, left, replies, chunkSize) <==>
        forall i :: 0 <= i < |sent| ==> 0 <= replies[i] <= |sent[i]|
  {
    if WellBehaved(|content|, pos, left, replies, chunkSize) {
      WellBehavedToPointwise(content, pos, left, replies, chunkSize);
    }
    var sent := Sent(content, pos, left, replies, chunkSize);
    if forall i :: 0 <= i < |sent| ==> 0 <= replies[i] <= |sent[i]| {
      WellBehavedFromPointwise(content, pos, left, replies, chunkSize);
    }
  }

  lemma {:induction false} WellBehavedToPointwise(content: seq<byte>, pos: nat, left: nat, replies: seq<CInt>,
                                                  chunkSize: nat)
    requires pos <= |content| && left < SizeModulus
    requires WellBehaved(|content|, pos, left, replies, chunkSize)
    ensures var sent := Sent(content, pos, left, replies, chunkSize);
      forall i :: 0 <= i < |sent| ==> 0 <= replies[i] <= |sent[i]|
    decreases |replies|
  {
    if left > 0 && replies != [] {
      var got := ReadSize(|content|, pos, left, chunkSize);
      var left' := SizeSub(left, IntToSize(replies[0]));
      var sent, tail := Sent(content, pos, left, replies, chunkSize), Sent(content, pos + got, left', replies[1..], chunkSize);
      WellBehavedToPointwise(content, pos + got, left', replies[1..], chunkSize);
      assert sent == [content[pos..pos + got]] + tail;
      forall i | 0 <= i < |sent|
        ensures 0 <= replies[i] <= |sent[i]|
      {
        if i > 0 { assert sent[i] == tail[i - 1] && replies[i] == replies[1..][i - 1]; }
      }
    }
  }

  lemma {:induction false} WellBehavedFromPointwise(content: seq<byte>, pos: nat, left: nat, replies: seq<CInt>,
                                                    chunkSize: nat)
    requires pos <= |content| && left < SizeModulus
    requires var sent := Sent(content, pos, left, replies, chunkSize);
      forall i :: 0 <= i < |sent| ==> 0 <= replies[i] <= |sent[i]|
    ensures WellBehaved(|content|, pos, left, replies, chunkSize)
    decreases |replies|
  {
    if left > 0 && replies != [] {
      var got := ReadSize(|content|, pos, left, chunkSize);
      var left' := SizeSub(left, IntToSize(replies[0]));
      var sent, tail := Sent(content, pos, left, replies, chunkSize), Sent(content, pos + got, left', replies[1..], chunkSize);
      assert sent == [content[pos..pos + got]] + tail;
      assert |sent[0]| == got;
      forall j | 0 <= j < |tail|
        ensures 0 <= replies[1..][j] <= |tail[j]|
      {
        assert sent[j + 1] == tail[j] && replies[j + 1] == replies[1..][j];
      }
      WellBehavedFromPointwise(content, pos + got, left', replies[1..], chunkSize);
    }
  }

  /** `AllAccepted` read buffer by buffer: reply `i` is the size of buffer `i`. */
  lemma AllAcceptedPointwise(content: seq<byte>, pos: nat, left: nat, replies: seq<CInt>, chunkSize: nat)
    requires pos <= |content| && left < SizeModulus
    ensures var sent := Sent(content, pos, left, replies, chunkSize);
      AllAccepted(|content|, pos, left, replies, chunkSize) <==>
        forall i :: 0 <= i < |sent| ==> replies[i] == |sent[i]|
  {
    if AllAccepted(|content|, pos, left, replies, chunkSize) {
      AllAcceptedToPointwise(content, pos, left, replies, chunkSize);
    }
    var sent := Sent(content, pos, left, replies, chunkSize);
    if forall i :: 0 <= i < |sent| ==> replies[i] == |sent[i]| {
      AllAcceptedFromPointwise(content, pos, left, replies, chunkSize);
    }
  }

  lemma {:induction false} AllAcceptedToPointwise(content: seq<byte>, pos: nat, left: nat, replies: seq<CInt>,
                                                  chunkSize: nat)
    requires pos <= |content| && left < SizeModulus
    requires AllAccepted(|content|, pos, left, replies, chunkSize)
    ensures var sent := Sent(content, pos, left, replies, chunkSize);
      forall i :: 0 <= i < |sent| ==> replies[i] == |sent[i]|
    decreases |replies|
  {
    if left > 0 && replies != [] {
      var got := ReadSize(|content|, pos, left, chunkSize);
      var left' := SizeSub(left, IntToSize(replies[0]));
      var sent, tail := Sent(content, pos, left, replies, chunkSize), Sent(content, pos + got, left', replies[1..], chunkSize);
      AllAcceptedToPointwise(content, pos + got, left', replies[1..], chunkSize);
      assert sent == [content[pos..pos + got]] + tail;
      forall i | 0 <= i < |sent|
        ensures replies[i] == |sent[i]|
      {
        if i > 0 { assert sent[i] == tail[i - 1] && replies[i] == replies[1..][i - 1]; }
      }
    }
  }

  lemma {:induction false} AllAcceptedFromPointwise(content: seq<byte>, pos: nat, left: nat, replies: seq<CInt>,
                                                    chunkSize: nat)
    requires pos <= |content| && left < SizeModulus
    requires var sent := Sent(content, pos, left, replies, chunkSize);
      forall i :: 0 <= i < |sent| ==> replies[i] == |sent[i]|
    ensures AllAccepted(|content|, pos, left, replies, chunkSize)
    decreases |replies|
  {
    if left > 0 && replies != [] {
      var got := ReadSize(|content|, pos, left, chunkSize);
      var left' := SizeSub(left, IntToSize(replies[0]));
      var sent, tail := Sent(content, pos, left, replies, chunkSize), Sent(content, pos + got, left', replies[1..], chunkSize);
      assert sent == [content[pos..pos + got]] + tail;
      assert |sent[0]| == got;
      forall j | 0 <= j < |tail|
        ensures replies[1..][j] == |tail[j]|
      {
        assert sent[j + 1] == tail[j] && replies[j + 1] == replies[1..][j];
      }
      AllAcceptedFromPointwise(content, pos + got, left', replies[1..], chunkSize);
    }
  }

  /**
    When the sink takes every buffer whole and answers at least `ceil(S / C)`
    times, the loop that starts owing the rest of the file sends exactly its
    reference pieces, owes nothing at the end and has read the file to its end.
  */
  lemma {:induction false} PumpAllAccepted(content: seq<byte>, pos: nat, replies: seq<CInt>, chunkSize: nat)
    requires chunkSize > 0 && pos <= |content| && |content| - pos < SizeModulus
    requires |Chunks(content, pos, chunkSize)| <= |replies|
    requires AllAccepted(|content|, pos, |content| - pos, replies, chunkSize)
    ensures Sent(content, pos, |content| - pos, replies, chunkSize) == Chunks(content, pos, chunkSize)
    ensures Pump(|content|, pos, |content| - pos, replies, chunkSize) ==
      Counters(0, |content|, |Chunks(content, pos, chunkSize)|)
    decreases |content| - pos
  {
    if pos < |content| {
      var n := Min(|content| - pos, chunkSize);
      assert ReadSize(|content|, pos, |content| - pos, chunkSize) == n;
      assert replies[0] == n;
      assert SizeSub(|content| - pos, IntToSize(replies[0])) == |content| - (pos + n);
      PumpAllAccepted(content, pos + n, replies[1..], chunkSize);
    }
  }

  /**
    Once the bytes owed exceed what is left of the file, a well-behaved sink
    can never bring them to zero: the loop cannot finish.
  */
  lemma {:induction false} PumpOvershoot(size: nat, pos: nat, left: nat, replies: seq<CInt>, chunkSize: nat)
    requires pos <= size && left < SizeModulus && pos + left > size
    requires WellBehaved(size, pos, left, replies, chunkSize)
    ensures Pump(size, pos, left, replies, chunkSize).left > 0
    decreases |replies|
  {
    if left > 0 && replies != [] {
      var got := ReadSize(size, pos, left, chunkSize);
      PumpOvershoot(size, pos + got, left - replies[0], replies[1..], chunkSize);
    }
  }

  /**
    With a well-behaved sink, the loop that starts owing exactly the rest of the
    file finishes only if every buffer was taken whole: a short write leaves it
    owing bytes that the file can no longer supply.
  */
  lemma {:induction false} PumpFinishedOnlyIfAllAccepted(size: nat, pos: nat, left: nat, replies: seq<CInt>,
                                                         chunkSize: nat)
    requires pos <= size && left < SizeModulus && pos + left == size
    requires WellBehaved(size, pos, left, replies, chunkSize)
    requires Pump(size, pos, left, replies, chunkSize).left == 0
    ensures AllAccepted(size, pos, left, replies, chunkSize)
    decreases |replies|
  {
    if left > 0 && replies != [] {
      var got := ReadSize(size, pos, left, chunkSize);
      if replies[0] < got {
        PumpOvershoot(size, pos + got, left - replies[0], replies[1..], chunkSize);
      } else {
        PumpFinishedOnlyIfAllAccepted(size, pos + got, left - replies[0], replies[1..], chunkSize);
      }
    }
  }

  /**
    `mg_write` reports an error as -1. Converted to `size_t` that is 2^32 - 1,
    so the subtraction wraps and the bytes owed grow by one instead of the loop
    noticing the error.
  */
  lemma ErrorReplyGrowsBytesLeft(size: nat, pos: nat, left: nat, chunkSize: nat)
    requires pos <= size && 0 < left < SizeModulus - 1
    ensures Pump(size, pos, left, [-1], chunkSize) == Counters(left + 1, pos + ReadSize(size, pos, left, chunkSize), 1)
  {
    assert [-1 as CInt][1..] == [];
  }
}
