/** The keyboard queue and the line editor, on values. */
module LineInput {
  import opened Machine

  const CAPACITY: nat := 255
  const RING: nat := 256

  const NUL: Byte := 0

  // ---------------------------------------------------------------- queue

  /** A character is dropped when 255 are pending. */
  function Insert(q: seq<Byte>, c: Byte): seq<Byte> {
    if |q| < CAPACITY then q + [c] else q
  }

  function InsertAll(q: seq<Byte>, cs: seq<Byte>): seq<Byte>
    decreases |cs|
  {
    if cs == [] then q else InsertAll(Insert(q, cs[0]), cs[1..])
  }

  /** What of cs gets into the queue. */
  function Accepted(q: seq<Byte>, cs: seq<Byte>): seq<Byte>
    decreases |cs|
  {
    if cs == [] then []
    else (if |q| < CAPACITY then [cs[0]] else []) + Accepted(Insert(q, cs[0]), cs[1..])
  }

  /** Exactly the characters that come while 255 are pending are dropped. */
  lemma InsertDrops(q: seq<Byte>, c: Byte)
    ensures |q| < 255 ==> Insert(q, c) == q + [c]
    ensures 255 <= |q| ==> Insert(q, c) == q
  {
  }

  lemma {:induction false} InsertAllAccepts(q: seq<Byte>, cs: seq<Byte>)
    ensures InsertAll(q, cs) == q + Accepted(q, cs)
    decreases |cs|
  {
    if cs != [] {
      InsertAllAccepts(Insert(q, cs[0]), cs[1..]);
    }
  }

  datatype Event = Key(c: Byte) | Read

  /** The queue, the characters accepted and the characters read after some events. */
  datatype Log = Log(queue: seq<Byte>, taken: seq<Byte>, seen: seq<Byte>)

  function Happen(l: Log, e: Event): Log {
    match e
    case Key(c) => Log(Insert(l.queue, c), if |l.queue| < CAPACITY then l.taken + [c] else l.taken, l.seen)
    case Read => if l.queue == [] then l else Log(l.queue[1..], l.taken, l.seen + [l.queue[0]])
  }

  function HappenAll(l: Log, es: seq<Event>): Log
    decreases |es|
  {
    if es == [] then l else HappenAll(Happen(l, es[0]), es[1..])
  }

  /** However insertions and reads are interleaved, the reader sees the accepted characters
      in order, none twice, none skipped: what it has seen followed by what is pending is
      what has been accepted.  At most 255 are ever pending. */
  lemma {:induction false} FirstInFirstOut(l: Log, es: seq<Event>)
    requires l.seen + l.queue == l.taken && |l.queue| <= 255
    ensures var r := HappenAll(l, es);
            r.seen + r.queue == r.taken && |r.queue| <= 255 && l.taken <= r.taken && l.seen <= r.seen
    decreases |es|
  {
    if es != [] {
      var n := Happen(l, es[0]);
      if es[0].Read? && l.queue != [] {
        assert l.queue == [l.queue[0]] + l.queue[1..];
      }
      FirstInFirstOut(n, es[1..]);
    }
  }

  // ---------------------------------------------------------------- line editing

  /** A line being typed, and whether it is finished. */
  datatype Line = Line(text: seq<Byte>, done: bool)

  predicate Printable(c: Byte) {
    32 <= c <= 126
  }

  /** A line is finished when it is full. */
  function Checked(text: seq<Byte>, maxLen: int): Line {
    Line(text, |text| >= maxLen - 1)
  }

  /** The effect of one character on an unfinished line. */
  function Consume(l: Line, c: Byte, maxLen: int): Line {
    if l.done then l
    else if c == NEWLINE then Line(l.text, true)
    else if c == BACKSPACE then (if l.text == [] then l else Checked(l.text[..|l.text| - 1], maxLen))
    else if Printable(c) then Checked(l.text + [c], maxLen)
    else l
  }

  function Edit(l: Line, cs: seq<Byte>, maxLen: int): Line
    decreases |cs|
  {
    if cs == [] then l else Edit(Consume(l, cs[0], maxLen), cs[1..], maxLen)
  }

  lemma {:induction false} EditSnoc(l: Line, cs: seq<Byte>, c: Byte, maxLen: int)
    ensures Edit(l, cs + [c], maxLen) == Consume(Edit(l, cs, maxLen), c, maxLen)
    decreases |cs|
  {
    if cs == [] {
      assert cs + [c] == [c];
      assert [c][1..] == [];
    } else {
      assert (cs + [c])[1..] == cs[1..] + [c];
      EditSnoc(Consume(l, cs[0], maxLen), cs[1..], c, maxLen);
    }
  }

  /** What one character does to an unfinished line: newline (10) finishes it; backspace (8)
      takes off the last character, if there is one; the characters 32 to 126 are put at the
      end, and finish the line when that fills it; all others do nothing. */
  lemma OneCharacter(text: seq<Byte>, c: Byte, maxLen: int)
    requires |text| < maxLen - 1
    ensures var l, r := Line(text, false), Edit(Line(text, false), [c], maxLen);
            && (c == 10 ==> r == Line(text, true))
            && (c == 8 && text == [] ==> r == l)
            && (c == 8 && text != [] ==> r == Line(text[..|text| - 1], false))
            && (32 <= c <= 126 ==> r == Line(text + [c], |text| + 1 == maxLen - 1))
            && (c != 10 && c != 8 && !(32 <= c <= 126) ==> r == l)
            && (r.text == text + [c] <==> 32 <= c <= 126)
  {
    assert [c][1..] == [];
    assert Edit(Line(text, false), [c], maxLen) == Edit(Consume(Line(text, false), c, maxLen), [], maxLen);
  }

  /** A new line is empty; without room for a character it is finished from the start. */
  lemma NewLineEmpty(maxLen: int)
    ensures Checked([], maxLen) == Line([], maxLen <= 1)
  {
  }

  /** A finished line takes no more characters. */
  lemma {:induction false} FinishedStays(text: seq<Byte>, cs: seq<Byte>, maxLen: int)
    ensures Edit(Line(text, true), cs, maxLen) == Line(text, true)
    decreases |cs|
  {
    if cs != [] {
      FinishedStays(text, cs[1..], maxLen);
    }
  }

  /** An edited line is printable, fits, and is finished whenever it is full. */
  ghost predicate Fits(l: Line, maxLen: int) {
    && |l.text| < maxLen
    && (|l.text| == maxLen - 1 ==> l.done)
    && (forall i :: 0 <= i < |l.text| ==> 32 <= l.text[i] <= 126)
  }

  lemma {:induction false} EditFits(l: Line, cs: seq<Byte>, maxLen: int)
    requires Fits(l, maxLen)
    ensures Fits(Edit(l, cs, maxLen), maxLen)
    decreases |cs|
  {
    if cs != [] {
      EditFits(Consume(l, cs[0], maxLen), cs[1..], maxLen);
    }
  }

  /** Typing a character and erasing it leaves the line as it was exactly if the character
      did not fill it: a full line is finished before the erasure is read. */
  lemma EraseCancels(l: Line, c: Byte, maxLen: int)
    requires Fits(l, maxLen) && !l.done && 32 <= c <= 126
    ensures Edit(l, [c, 8], maxLen) == l <==> |l.text| + 1 < maxLen - 1
  {
    EditSnoc(l, [c], BACKSPACE, maxLen);
    EditSnoc(l, [], c, maxLen);
    assert [] + [c] == [c] && [c] + [BACKSPACE] == [c, BACKSPACE];
    assert (l.text + [c])[..|l.text|] == l.text;
  }

  /** Typed without corrections a short line comes out as typed. */
  lemma {:induction false} PlainLine(text: seq<Byte>, cs: seq<Byte>, maxLen: int)
    requires (forall i :: 0 <= i < |cs| ==> 32 <= cs[i] <= 126) && |text| + |cs| < maxLen - 1
    ensures Edit(Line(text, false), cs, maxLen) == Line(text + cs, false)
    ensures Edit(Line(text, false), cs + [10], maxLen) == Line(text + cs, true)
    decreases |cs|
  {
    if cs == [] {
      assert text + cs == text;
    } else {
      PlainLine(text + [cs[0]], cs[1..], maxLen);
      assert text + [cs[0]] + cs[1..] == text + cs;
    }
    EditSnoc(Line(text, false), cs, NEWLINE, maxLen);
  }

  // ---------------------------------------------------------------- reading a line

  /** The queue after the characters of a batch have arrived, if there still is one. */
  function Arrived(q: seq<Byte>, batches: seq<seq<Byte>>): seq<Byte> {
    if batches == [] then q else InsertAll(q, batches[0])
  }

  function Later(batches: seq<seq<Byte>>): seq<seq<Byte>> {
    if batches == [] then [] else batches[1..]
  }

  /** The queue and the line when the reader has finished or run dry.  Before each round one
      batch of characters arrives, as long as there are batches; a round reads at most one
      character. */
  function ReadRounds(q: seq<Byte>, l: Line, batches: seq<seq<Byte>>, maxLen: int): (seq<Byte>, Line)
    decreases |batches|, |q|
  {
    var q1 := Arrived(q, batches);
    if l.done || (batches == [] && q == []) then (q, l)
    else if q1 == [] then ReadRounds([], l, Later(batches), maxLen)
    else ReadRounds(q1[1..], Consume(l, q1[0], maxLen), Later(batches), maxLen)
  }

  /** The characters that get into the queue meanwhile. */
  function CameIn(q: seq<Byte>, l: Line, batches: seq<seq<Byte>>, maxLen: int): seq<Byte>
    decreases |batches|, |q|
  {
    var q1 := Arrived(q, batches);
    if l.done || (batches == [] && q == []) then []
    else (if batches == [] then [] else Accepted(q, batches[0]))
         + if q1 == [] then CameIn([], l, Later(batches), maxLen)
           else CameIn(q1[1..], Consume(l, q1[0], maxLen), Later(batches), maxLen)
  }

  /** What the reader has eaten is the old queue and the characters that came in, in order,
      up to what is pending now; the line is what editing that makes of it.  A reader that
      has not finished has read everything there was; one that has finished has read nothing
      beyond the character that finished the line. */
  lemma {:induction false} ReaderEatsInOrder(q: seq<Byte>, l: Line, batches: seq<seq<Byte>>, maxLen: int)
    returns (eaten: seq<Byte>)
    ensures var (q', l') := ReadRounds(q, l, batches, maxLen);
            && q + CameIn(q, l, batches, maxLen) == eaten + q'
            && l' == Edit(l, eaten, maxLen)
            && (l'.done || q' == [])
    ensures forall k :: 0 <= k < |eaten| ==> !Edit(l, eaten[..k], maxLen).done
    decreases |batches|, |q|
  {
    hide InsertAll, Consume, Edit, Accepted;
    eaten := [];
    EditNothing(l, maxLen);
    if !l.done && (batches != [] || q != []) {
      var q1 := Arrived(q, batches);
      var now := ArrivedAccepts(q, batches);
      var q2, n := if q1 == [] then [] else q1[1..], if q1 == [] then l else Consume(l, q1[0], maxLen);
      var came := CameIn(q2, n, Later(batches), maxLen);
      eaten := ReaderEatsInOrder(q2, n, Later(batches), maxLen);
      var rest := ReadRounds(q2, n, Later(batches), maxLen).0;
      EatenMore(q, now, q1, came, eaten, rest);
      if q1 != [] {
        EditCons(l, q1[0], eaten, maxLen);
        var all := [q1[0]] + eaten;
        forall k | 0 <= k < |all|
          ensures !Edit(l, all[..k], maxLen).done
        {
          if 0 < k {
            EditCons(l, q1[0], eaten[..k - 1], maxLen);
            assert all[..k] == [q1[0]] + eaten[..k - 1];
          }
        }
        eaten := all;
      }
    }
  }

  lemma EatenMore(q: seq<Byte>, now: seq<Byte>, q1: seq<Byte>, came: seq<Byte>, eaten: seq<Byte>, rest: seq<Byte>)
    requires q1 == q + now && (if q1 == [] then [] else q1[1..]) + came == eaten + rest
    ensures q + (now + came) == (if q1 == [] then eaten else [q1[0]] + eaten) + rest
  {
    assert q + (now + came) == q1 + came;
    if q1 != [] {
      assert q1 + came == [q1[0]] + (q1[1..] + came);
      assert ([q1[0]] + eaten) + rest == [q1[0]] + (eaten + rest);
    }
  }

  lemma ArrivedAccepts(q: seq<Byte>, batches: seq<seq<Byte>>) returns (now: seq<Byte>)
    ensures Arrived(q, batches) == q + now
    ensures now == if batches == [] then [] else Accepted(q, batches[0])
  {
    if batches == [] {
      now := [];
    } else {
      InsertAllAccepts(q, batches[0]);
      now := Accepted(q, batches[0]);
    }
  }

  function Typed(batches: seq<seq<Byte>>): seq<Byte> {
    if batches == [] then [] else batches[0] + Typed(batches[1..])
  }

  lemma {:induction false} AcceptedAll(q: seq<Byte>, cs: seq<Byte>)
    requires |q| + |cs| <= 255
    ensures Accepted(q, cs) == cs
    decreases |cs|
  {
    if cs != [] {
      AcceptedAll(Insert(q, cs[0]), cs[1..]);
    }
  }

  /** As long as no more than 255 characters are waiting or still to be typed, none is lost:
      a reader that finishes has seen the first of them, one that does not all of them. */
  lemma {:induction false} NothingDropped(q: seq<Byte>, l: Line, batches: seq<seq<Byte>>, maxLen: int)
    requires |q| + |Typed(batches)| <= 255
    ensures CameIn(q, l, batches, maxLen) <= Typed(batches)
    ensures !ReadRounds(q, l, batches, maxLen).1.done ==> CameIn(q, l, batches, maxLen) == Typed(batches)
    decreases |batches|, |q|
  {
    hide InsertAll, Consume, Accepted;
    if !l.done && (batches != [] || q != []) {
      var q1 := Arrived(q, batches);
      var now := ArrivedAccepts(q, batches);
      if batches != [] {
        AcceptedAll(q, batches[0]);
      }
      NothingDropped(if q1 == [] then [] else q1[1..],
                     if q1 == [] then l else Consume(l, q1[0], maxLen),
                     Later(batches), maxLen);
      assert Typed(batches) == now + Typed(Later(batches));
    }
  }

  lemma EditNothing(l: Line, maxLen: int)
    ensures Edit(l, [], maxLen) == l
  {
  }

  lemma EditCons(l: Line, c: Byte, cs: seq<Byte>, maxLen: int)
    ensures Edit(l, [c] + cs, maxLen) == Edit(Consume(l, c, maxLen), cs, maxLen)
  {
    assert ([c] + cs)[1..] == cs;
  }
}
