/** The keyboard ring buffer and console_readline as they run. */
module Keyboard {
  import opened Machine
  import opened LineInput

  class Input {
    const inputBuffer: array<Byte>
    var head: nat
    var tail: nat
    var count: nat
    /** The pending characters, oldest first. */
    ghost var queue: seq<Byte>

    ghost predicate Valid()
      reads this, inputBuffer
    {
      && inputBuffer.Length == RING
      && tail < RING
      && count == |queue| <= CAPACITY
      && head == (tail + count) % RING
      && Circular(inputBuffer[..], tail, queue)
    }

    lemma Counted()
      requires Valid()
      ensures count == |queue|
    {
    }

    constructor ()
      ensures Valid() && queue == [] && fresh(inputBuffer)
    {
      inputBuffer := new Byte[RING](i => 0);
      head, tail, count := 0, 0, 0;
      queue := [];
    }

    method AddToBuffer(c: Byte)
      requires Valid()
      modifies `head, `count, `queue, inputBuffer
      ensures Valid() && queue == Insert(old(queue), c)
    {
      if count < CAPACITY {
        CircularPush(inputBuffer[..], tail, queue, c);
        inputBuffer[head] := c;
        head := (head + 1) % RING;
        count := count + 1;
        queue := queue + [c];
      }
    }

    method GetChar() returns (c: Byte)
      requires Valid()
      modifies `tail, `count, `queue
      ensures Valid()
      ensures old(queue) == [] ==> c == NUL && queue == []
      ensures old(queue) != [] ==> c == old(queue)[0] && queue == old(queue)[1..]
    {
      if count == 0 {
        return NUL;
      }
      CircularPop(inputBuffer[..], tail, queue);
      c := inputBuffer[tail];
      tail := (tail + 1) % RING;
      count := count - 1;
      queue := queue[1..];
    }

    method Flush()
      requires Valid()
      modifies `head, `tail, `count, `queue
      ensures Valid() && queue == []
    {
      head, tail, count := 0, 0, 0;
      queue := [];
    }

    /** The keyboard interrupts that arrive at one moment. */
    method Arrive(cs: seq<Byte>)
      requires Valid()
      modifies `head, `count, `queue, inputBuffer
      ensures Valid() && queue == InsertAll(old(queue), cs)
    {
      ghost var q := queue;
      assert cs[0..] == cs;
      for i := 0 to |cs|
        invariant Valid() && InsertAll(queue, cs[i..]) == InsertAll(q, cs)
      {
        assert cs[i..][1..] == cs[i + 1..];
        AddToBuffer(cs[i]);
      }
    }

    /** Characters arrive, then one is read. */
    method Poll(batch: seq<Byte>) returns (c: Byte)
      requires Valid()
      modifies `head, `tail, `count, `queue, inputBuffer
      ensures Valid()
      ensures var q := InsertAll(old(queue), batch);
              if q == [] then c == NUL && queue == [] else c == q[0] && queue == q[1..]
    {
      hide Valid, InsertAll;
      Arrive(batch);
      c := GetChar();
    }

    /** Read a line.  Before each round of the loop the characters of the next batch arrive
        (none, if the batch is empty).  The reader is still waiting when the batches have run
        out, the queue is empty and the line is not finished. */
    method ReadLine(buffer: array<Byte>, maxLen: int, batches: seq<seq<Byte>>) returns (waiting: bool, pos: nat)
      requires Valid() && 1 <= buffer.Length && maxLen <= buffer.Length && buffer != inputBuffer
      modifies `head, `tail, `count, `queue, inputBuffer, buffer
      ensures Valid()
      ensures var (q, line) := ReadRounds(old(queue), Checked([], maxLen), batches, maxLen);
              && queue == q
              && Holds(buffer, pos, line, maxLen)
              && waiting == !line.done
      ensures !waiting ==> buffer[pos] == NUL
      ensures forall k :: maxLen <= k < buffer.Length && 0 < k ==> buffer[k] == old(buffer[k])
    {
      hide Valid, Consume, InsertAll, Wrap, ReadRounds;
      pos := 0;
      var round := 0;
      ghost var line := Checked([], maxLen);
      ghost var q0, start := queue, line;
      assert batches[0..] == batches;
      while pos < maxLen - 1
        invariant Valid() && 0 <= round <= |batches|
        invariant ReadRounds(queue, line, batches[round..], maxLen) == ReadRounds(q0, start, batches, maxLen)
        invariant Holds(buffer, pos, line, maxLen) && (line.done <==> pos >= maxLen - 1)
        invariant forall k :: maxLen <= k < buffer.Length && 0 < k ==> buffer[k] == old(buffer[k])
        decreases |batches| - round, |queue|
      {
        Counted();
        ghost var q, later := queue, batches[round..];
        RoundCases(q, line, later, maxLen);
        var batch := [];
        if round < |batches| {
          batch, round := batches[round], round + 1;
        } else if count == 0 {
          return true, pos;
        }
        InsertNone(q);
        assert Arrived(q, later) == InsertAll(q, batch) && Later(later) == batches[round..];
        var c := Poll(batch);
        var next, done := Obey(buffer, pos, c, maxLen, line);
        pos, line := next, Consume(line, c, maxLen);
        if done {
          RoundCases(queue, line, batches[round..], maxLen);
          return false, pos;
        }
      }
      RoundCases(queue, line, batches[round..], maxLen);
      buffer[pos] := NUL;
      waiting := false;
    }
  }

  /** The buffer holds the text of a line. */
  ghost predicate Holds(buffer: array<Byte>, pos: nat, line: Line, maxLen: int)
    reads buffer
  {
    && maxLen <= buffer.Length
    && pos < buffer.Length
    && (pos < maxLen || pos == 0)
    && buffer[..pos] == line.text
  }

  /** The body of the reading loop for one character. */
  method Obey(buffer: array<Byte>, pos: nat, c: Byte, maxLen: int, ghost line: Line)
    returns (next: nat, done: bool)
    requires Holds(buffer, pos, line, maxLen) && !line.done && pos < maxLen - 1
    modifies buffer
    ensures Holds(buffer, next, Consume(line, c, maxLen), maxLen)
    ensures done == (c == NEWLINE) && Consume(line, c, maxLen).done == (done || next == maxLen - 1)
    ensures done ==> buffer[next] == NUL
    ensures forall k :: maxLen <= k < buffer.Length ==> buffer[k] == old(buffer[k])
  {
    next, done := pos, false;
    if c == NUL {
      // nothing to read: halt until the next interrupt
    } else if c == NEWLINE {
      buffer[pos] := NUL;
      done := true;
    } else if c == BACKSPACE {
      if pos > 0 {
        next := pos - 1;
      }
    } else if 32 <= c <= 126 {
      buffer[pos] := c;
      next := pos + 1;
    }
  }

  /** One round of reading; a round that reads nothing sees NUL, which changes nothing. */
  lemma RoundCases(q: seq<Byte>, l: Line, batches: seq<seq<Byte>>, maxLen: int)
    ensures l.done || (batches == [] && q == []) ==> ReadRounds(q, l, batches, maxLen) == (q, l)
    ensures !l.done && (batches != [] || q != []) ==>
              var q1 := Arrived(q, batches);
              ReadRounds(q, l, batches, maxLen) ==
              if q1 == [] then ReadRounds([], Consume(l, NUL, maxLen), Later(batches), maxLen)
              else ReadRounds(q1[1..], Consume(l, q1[0], maxLen), Later(batches), maxLen)
  {
  }

  lemma InsertNone(q: seq<Byte>)
    ensures InsertAll(q, []) == q
  {
  }

  function Wrap(i: nat): (r: nat)
    ensures r < RING
  {
    i % RING
  }

  /** The characters q lie in the ring from index tail on. */
  ghost predicate Circular(ring: seq<Byte>, tail: nat, q: seq<Byte>) {
    |ring| == RING && forall i :: 0 <= i < |q| ==> q[i] == ring[Wrap(tail + i)]
  }

  lemma WrapApart(tail: nat, i: nat, j: nat)
    requires i < j < i + RING
    ensures Wrap(tail + i) != Wrap(tail + j)
  {
  }

  lemma CircularPush(ring: seq<Byte>, tail: nat, q: seq<Byte>, c: Byte)
    requires Circular(ring, tail, q) && |q| < RING
    ensures Circular(ring[Wrap(tail + |q|) := c], tail, q + [c])
  {
    hide Wrap;
    forall i | 0 <= i < |q|
      ensures q[i] == ring[Wrap(tail + |q|) := c][Wrap(tail + i)]
    {
      WrapApart(tail, i, |q|);
    }
  }

  lemma WrapNext(tail: nat, i: nat)
    ensures Wrap(Wrap(tail + 1) + i) == Wrap(tail + (i + 1))
  {
  }

  lemma CircularPop(ring: seq<Byte>, tail: nat, q: seq<Byte>)
    requires Circular(ring, tail, q) && q != [] && tail < RING
    ensures q[0] == ring[tail] && Circular(ring, Wrap(tail + 1), q[1..])
  {
    assert Wrap(tail + 0) == tail;
    hide Wrap;
    forall i | 0 <= i < |q| - 1
      ensures q[1..][i] == ring[Wrap(Wrap(tail + 1) + i)]
    {
      WrapNext(tail, i);
    }
  }
}
