/** Newline framing of crates/unpin-cli/src/desktop_bridge.rs.

    `ReadFrame` pulls lines out of a buffered input that is delivered in
    arbitrary pieces.  Its contract speaks only of the bytes not yet read, so a
    run of it sees the same frames however the input was cut. */
module BridgeFrames {
  import opened Bytes

  const MAX_FRAME_BYTES := 1_048_576

  datatype Progress = Pending | Done(result: ReadResult)

  datatype ReadResult = Complete(bytes: seq<byte>) | Oversized | EndOfInput

  // --- A simple line splitter ---------------------------------------------

  predicate NoNewline(s: seq<byte>) {
    forall i | 0 <= i < |s| :: s[i] != LF
  }

  function NewlineFrom(s: seq<byte>, i: nat): (n: nat)
    requires i <= |s|
    ensures i <= n <= |s| && (n < |s| ==> s[n] == LF)
    ensures forall j | i <= j < n :: s[j] != LF
    decreases |s| - i
  {
    if i == |s| || s[i] == LF then i else NewlineFrom(s, i + 1)
  }

  /** The length of the first line: the index of its newline, or everything. */
  function LineEnd(s: seq<byte>): (n: nat)
    ensures n <= |s| && (n < |s| ==> s[n] == LF)
    ensures forall i | 0 <= i < n :: s[i] != LF
  {
    NewlineFrom(s, 0)
  }

  function Stripped(line: seq<byte>): seq<byte> {
    if line != [] && line[|line| - 1] == CR then line[..|line| - 1] else line
  }

  function NextFrame(s: seq<byte>): ReadResult {
    var n := LineEnd(s);
    if s == [] then EndOfInput
    else if n < |s| then if n + 1 > MAX_FRAME_BYTES then Oversized else Complete(Stripped(s[..n]))
    else if n > MAX_FRAME_BYTES then Oversized else Complete(s)
  }

  function AfterFrame(s: seq<byte>): (r: seq<byte>)
    ensures s != [] ==> |r| < |s|
  {
    var n := LineEnd(s);
    if n < |s| then s[n + 1..] else []
  }

  function AllFrames(s: seq<byte>): seq<ReadResult>
    decreases |s|
  {
    if s == [] then [] else [NextFrame(s)] + AllFrames(AfterFrame(s))
  }

  lemma LineEndPast(a: seq<byte>, b: seq<byte>)
    requires NoNewline(a)
    ensures LineEnd(a + b) == |a| + LineEnd(b)
  {
    var n, m := LineEnd(a + b), LineEnd(b);
    assert forall i | 0 <= i < |a + b| :: (a + b)[i] == if i < |a| then a[i] else b[i - |a|];
    assert m < |b| ==> (a + b)[|a| + m] == LF;
  }

  /** The line begun by `held` ends in the buffered bytes. */
  lemma {:induction false} EndsInBuffer(held: seq<byte>, available: seq<byte>, later: seq<byte>, n: nat)
    requires NoNewline(held) && n == LineEnd(available) < |available|
    ensures NextFrame(held + (available + later)) == LineFrame(held + available[..n])
    ensures AfterFrame(held + (available + later)) == (available + later)[n + 1..]
    ensures held + available[..n + 1] == (held + available[..n]) + [LF]
  {
    var line := held + available[..n];
    var rest := (available + later)[n..];
    var s := held + (available + later);
    assert s == line + rest;
    LineEndPast(line, rest);
    assert rest[0] == LF && LineEnd(rest) == 0;
    assert s[..|line|] == line;
  }

  /** The line begun by `held` goes on past the buffered bytes. */
  lemma GoesOn(held: seq<byte>, available: seq<byte>, later: seq<byte>)
    requires NoNewline(held) && LineEnd(available) == |available| > 0
    ensures NoNewline(held + available)
    ensures held + (available + later) == (held + available) + later
    ensures |held + available| > MAX_FRAME_BYTES ==> NextFrame(held + (available + later)) == Oversized
    ensures AfterFrame(held + (available + later)) == AfterFrame(later)
  {
    var s := held + (available + later);
    assert s == (held + available) + later;
    LineEndPast(held + available, later);
    var m := LineEnd(later);
    assert m < |later| ==> s[|held + available| + m + 1..] == later[m + 1..];
  }

  lemma Overflows(held: seq<byte>, available: seq<byte>, later: seq<byte>, n: nat)
    requires NoNewline(held) && n == LineEnd(available) && available != []
    requires |held| + (if n < |available| then n + 1 else |available|) > MAX_FRAME_BYTES
    ensures NextFrame(held + (available + later)) == Oversized
    ensures AfterFrame(held + (available + later)) == AfterFrame(available + later)
  {
    assert [] + (available + later) == available + later;
    if n < |available| {
      EndsInBuffer(held, available, later, n);
      EndsInBuffer([], available, later, n);
    } else {
      GoesOn(held, available, later);
      GoesOn([], available, later);
    }
  }

  lemma FrameAtEnd(held: seq<byte>)
    requires NoNewline(held) && |held| <= MAX_FRAME_BYTES
    ensures NextFrame(held) == (if held == [] then EndOfInput else Complete(held))
    ensures AfterFrame(held) == []
  {
    LineEndPast(held, []);
    assert held + [] == held;
  }

  /** Lines, each ended by a newline, then an unterminated tail. */
  function Joined(lines: seq<seq<byte>>, tail: seq<byte>): seq<byte> {
    if lines == [] then tail else lines[0] + [LF] + Joined(lines[1..], tail)
  }

  function LineFrame(line: seq<byte>): ReadResult {
    if |line| + 1 > MAX_FRAME_BYTES then Oversized else Complete(Stripped(line))
  }

  function TailFrames(tail: seq<byte>): seq<ReadResult> {
    if tail == [] then []
    else if |tail| > MAX_FRAME_BYTES then [Oversized]
    else [Complete(tail)]
  }

  lemma FirstLine(line: seq<byte>, rest: seq<byte>)
    requires NoNewline(line)
    ensures NextFrame(line + [LF] + rest) == LineFrame(line)
    ensures AfterFrame(line + [LF] + rest) == rest
  {
    assert line + [LF] + rest == line + ([LF] + rest);
    EndsInBuffer(line, [LF], rest, 0);
    assert line + [LF][..0] == line;
  }

  /** One frame per line: an overlong line gives one `Oversized` and costs no
      other line; the rest lose the newline and one carriage return; an
      unterminated last line comes back as it is. */
  lemma {:induction false} FramesOfLines(lines: seq<seq<byte>>, tail: seq<byte>)
    requires forall i | 0 <= i < |lines| :: NoNewline(lines[i])
    requires NoNewline(tail)
    ensures AllFrames(Joined(lines, tail)) ==
            seq(|lines|, i requires 0 <= i < |lines| => LineFrame(lines[i])) + TailFrames(tail)
  {
    if lines == [] {
      LineEndPast(tail, []);
      assert tail + [] == tail;
    } else {
      var rest := Joined(lines[1..], tail);
      FirstLine(lines[0], rest);
      FramesOfLines(lines[1..], tail);
    }
  }

  /** Every input is lines and a tail, so the lemma above covers every input. */
  lemma {:induction false} EveryInputIsLines(s: seq<byte>) returns (lines: seq<seq<byte>>, tail: seq<byte>)
    ensures forall i | 0 <= i < |lines| :: NoNewline(lines[i])
    ensures NoNewline(tail) && Joined(lines, tail) == s
    decreases |s|
  {
    var n := LineEnd(s);
    if n == |s| {
      assert s[..n] == s;
      return [], s;
    }
    var more, last := EveryInputIsLines(s[n + 1..]);
    lines, tail := [s[..n]] + more, last;
    assert lines[1..] == more;
  }

  // --- The buffered input -------------------------------------------------

  /** A buffered reader: bytes held, and what the reads to come will deliver. */
  class BufferedInput {
    var buffer: seq<byte>
    var deliveries: seq<seq<byte>>

    ghost predicate Valid()
      reads this
    {
      forall i | 0 <= i < |deliveries| :: deliveries[i] != []
    }

    ghost function Unread(): seq<byte>
      reads this
    {
      buffer + Flatten(deliveries)
    }

    constructor (deliveries: seq<seq<byte>>)
      requires forall i | 0 <= i < |deliveries| :: deliveries[i] != []
      ensures Valid() && Unread() == Flatten(deliveries)
    {
      this.buffer := [];
      this.deliveries := deliveries;
    }

    method FillBuf() returns (available: seq<byte>)
      requires Valid()
      modifies this
      ensures Valid() && Unread() == old(Unread())
      ensures available == buffer && (available == [] <==> Unread() == [])
    {
      if buffer == [] && deliveries != [] {
        buffer, deliveries := deliveries[0], deliveries[1..];
      }
      available := buffer;
    }

    method Consume(count: nat)
      requires Valid() && count <= |buffer|
      modifies this
      ensures Valid() && Unread() == old(Unread())[count..]
    {
      buffer := buffer[count..];
    }
  }

  /** The reusable frame buffer, which never grows past the limit. */
  class FrameBuffer {
    var bytes: seq<byte>

    constructor ()
      ensures bytes == []
    {
      bytes := [];
    }

    method Extend(more: seq<byte>)
      requires |bytes| + |more| <= MAX_FRAME_BYTES
      modifies this
      ensures bytes == old(bytes) + more
    {
      bytes := bytes + more;
    }
  }

  method DiscardToNewline(input: BufferedInput)
    requires input.Valid()
    modifies input
    ensures input.Valid() && input.Unread() == AfterFrame(old(input.Unread()))
  {
    while true
      invariant input.Valid() && AfterFrame(input.Unread()) == AfterFrame(old(input.Unread()))
      decreases |input.Unread()|
    {
      var available := input.FillBuf();
      if available == [] {
        return;
      }
      ghost var later := Flatten(input.deliveries);
      assert [] + input.Unread() == input.Unread();
      var index := LineEnd(available);
      if index < |available| {
        EndsInBuffer([], available, later, index);
        input.Consume(index + 1);
        return;
      }
      GoesOn([], available, later);
      input.Consume(|available|);
    }
  }

  /** Drops the newline that ended the line, and one carriage return. */
  method DropLineEnd(frame: FrameBuffer, ghost line: seq<byte>)
    requires frame.bytes == line + [LF]
    modifies frame
    ensures frame.bytes == Stripped(line)
  {
    if frame.bytes != [] && frame.bytes[|frame.bytes| - 1] == LF {
      frame.bytes := frame.bytes[..|frame.bytes| - 1];
    }
    assert frame.bytes == line;
    if frame.bytes != [] && frame.bytes[|frame.bytes| - 1] == CR {
      frame.bytes := frame.bytes[..|frame.bytes| - 1];
    }
  }

  /** Drops the rest of an overlong line: `take` buffered bytes, then up to the
      newline if it was not among them. */
  method SkipOverlong(input: BufferedInput, newline: nat, take: nat)
    requires input.Valid() && newline == LineEnd(input.buffer) && input.buffer != []
    requires take == if newline < |input.buffer| then newline + 1 else newline
    modifies input
    ensures input.Valid() && input.Unread() == AfterFrame(old(input.Unread()))
  {
    var found := newline < |input.buffer|;
    ghost var later := Flatten(input.deliveries);
    assert [] + input.Unread() == input.Unread();
    if found {
      EndsInBuffer([], input.buffer, later, newline);
    } else {
      GoesOn([], input.buffer, later);
    }
    input.Consume(take);
    if !found {
      DiscardToNewline(input);
    }
  }

  /** One buffer of the current line: `Pending` while its newline is not yet seen. */
  method ReadPiece(input: BufferedInput, frame: FrameBuffer) returns (result: Progress)
    requires input.Valid() && NoNewline(frame.bytes) && |frame.bytes| <= MAX_FRAME_BYTES
    modifies input, frame
    ensures input.Valid() && |frame.bytes| <= MAX_FRAME_BYTES
    ensures result == Pending ==>
              && NoNewline(frame.bytes) && |input.Unread()| < |old(input.Unread())|
              && frame.bytes + input.Unread() == old(frame.bytes + input.Unread())
    ensures result.Done? ==>
              && result.result == NextFrame(old(frame.bytes + input.Unread()))
              && input.Unread() == AfterFrame(old(frame.bytes + input.Unread()))
              && (result.result.Complete? ==> frame.bytes == result.result.bytes)
  {
    var available := input.FillBuf();
    ghost var held, later := frame.bytes, Flatten(input.deliveries);
    if available == [] {
      assert held + input.Unread() == held;
      FrameAtEnd(held);
      return Done(if frame.bytes != [] then Complete(frame.bytes) else EndOfInput);
    }
    var newline := LineEnd(available);
    var found := newline < |available|;
    var take := if found then newline + 1 else |available|;
    if |frame.bytes| + take > MAX_FRAME_BYTES {
      Overflows(held, available, later, newline);
      SkipOverlong(input, newline, take);
      return Done(Oversized);
    }
    frame.Extend(available[..take]);
    input.Consume(take);
    if found {
      EndsInBuffer(held, available, later, newline);
      DropLineEnd(frame, held + available[..newline]);
      return Done(Complete(frame.bytes));
    }
    GoesOn(held, available, later);
    assert available[..take] == available && (available + later)[take..] == later;
    return Pending;
  }

  /** The next frame, whatever pieces the input arrives in: what the line
      splitter says of the unread bytes, which lose exactly that line. */
  method ReadFrame(input: BufferedInput, frame: FrameBuffer) returns (result: ReadResult)
    requires input.Valid()
    modifies input, frame
    ensures input.Valid() && input.Unread() == AfterFrame(old(input.Unread()))
    ensures result == NextFrame(old(input.Unread()))
    ensures result.Complete? ==> frame.bytes == result.bytes
    ensures |frame.bytes| <= MAX_FRAME_BYTES
  {
    frame.bytes := [];
    ghost var start := input.Unread();
    assert frame.bytes + start == start;
    while true
      invariant input.Valid() && NoNewline(frame.bytes) && |frame.bytes| <= MAX_FRAME_BYTES
      invariant frame.bytes + input.Unread() == start
      decreases |input.Unread()|
    {
      var piece := ReadPiece(input, frame);
      if piece.Done? {
        return piece.result;
      }
    }
  }

  // --- What a frame is ---------------------------------------------------------

  /** A line is a frame without its newline and one carriage return before it, when line
      and newline are at most a mebibyte; an unterminated tail is a frame as it is, when
      it is at most that. */
  lemma FramesAre(line: seq<byte>)
    requires NoNewline(line)
    ensures LineFrame(line) ==
            if |line| >= 1_048_576 then Oversized
            else if |line| > 0 && line[|line| - 1] == 13 then Complete(line[..|line| - 1])
            else Complete(line)
    ensures TailFrames(line) ==
            if |line| == 0 then [] else if |line| > 1_048_576 then [Oversized] else [Complete(line)]
    ensures NextFrame(line + [10]) == LineFrame(line)
    ensures line != [] ==> [NextFrame(line)] == TailFrames(line)
  {
    FirstLine(line, []);
    assert line + [LF] + [] == line + [10];
    LineEndPast(line, []);
    assert line + [] == line;
  }
}
