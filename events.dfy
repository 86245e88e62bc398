/** The observable behaviour of mled as a log of events: LED writes, sleeps,
    trace characters on standard output and diagnostics on standard error.
    The functions here say which events each part of the program produces;
    the methods of Mled.Console are proved to produce exactly these. */
module Events {
  import opened MorseTable
  import opened ByteClass

  /** The CAPS LOCK LED bit (SCROLL LOCK is 0x1, NUM LOCK 0x2). */
  const LedCap: int := 0x4

  datatype Event =
    | SetLed(value: int)  // KDSETLED with this bit mask
    | Sleep(us: int)      // usleep for this many microseconds
    | Trace(c: char)      // one character of verbose output
    | Diag                // the "non-ascii character found" message

  /** The values written to the LED, in order. */
  function LedWrites(es: seq<Event>): seq<int>
  {
    if es == [] then [] else (if es[0].SetLed? then [es[0].value] else []) + LedWrites(es[1..])
  }

  /** The sleep durations, in order. */
  function Sleeps(es: seq<Event>): seq<int>
  {
    if es == [] then [] else (if es[0].Sleep? then [es[0].us] else []) + Sleeps(es[1..])
  }

  /** The verbose trace, in order. */
  function Marks(es: seq<Event>): seq<char>
  {
    if es == [] then [] else (if es[0].Trace? then [es[0].c] else []) + Marks(es[1..])
  }

  /** The number of diagnostics. */
  function DiagCount(es: seq<Event>): nat
  {
    if es == [] then 0 else (if es[0].Diag? then 1 else 0) + DiagCount(es[1..])
  }

  function Sum(xs: seq<int>): int
  {
    if xs == [] then 0 else xs[0] + Sum(xs[1..])
  }

  /** Total time spent sleeping. */
  function TotalSleep(es: seq<Event>): int
  {
    Sum(Sleeps(es))
  }

  lemma {:induction false} SumAppend(a: seq<int>, b: seq<int>)
    ensures Sum(a + b) == Sum(a) + Sum(b)
  {
    if a == [] {
      assert a + b == b;
    } else {
      assert (a + b)[1..] == a[1..] + b;
      SumAppend(a[1..], b);
    }
  }

  lemma AppendAssoc(a: seq<Event>, b: seq<Event>, c: seq<Event>)
    ensures a + b + c == a + (b + c)
  {
  }

  /** The projections of a log that starts with `e`. */
  lemma ProjectionsCons(e: Event, rest: seq<Event>)
    ensures LedWrites([e] + rest) == (if e.SetLed? then [e.value] else []) + LedWrites(rest)
    ensures Sleeps([e] + rest) == (if e.Sleep? then [e.us] else []) + Sleeps(rest)
    ensures Marks([e] + rest) == (if e.Trace? then [e.c] else []) + Marks(rest)
    ensures DiagCount([e] + rest) == (if e.Diag? then 1 else 0) + DiagCount(rest)
  {
    assert ([e] + rest)[1..] == rest;
  }

  lemma {:induction false} LedWritesAppend(a: seq<Event>, b: seq<Event>)
    ensures LedWrites(a + b) == LedWrites(a) + LedWrites(b)
  {
    if a == [] {
      assert a + b == b;
    } else {
      var t := a[1..];
      assert (a + b)[0] == a[0];
      assert (a + b)[1..] == t + b;
      LedWritesAppend(t, b);
      assert LedWrites(a + b) == (if a[0].SetLed? then [a[0].value] else []) + (LedWrites(t) + LedWrites(b));
      assert LedWrites(a) == (if a[0].SetLed? then [a[0].value] else []) + LedWrites(t);
    }
  }

  lemma {:induction false} SleepsAppend(a: seq<Event>, b: seq<Event>)
    ensures Sleeps(a + b) == Sleeps(a) + Sleeps(b)
  {
    if a == [] {
      assert a + b == b;
    } else {
      var t := a[1..];
      assert (a + b)[0] == a[0];
      assert (a + b)[1..] == t + b;
      SleepsAppend(t, b);
      assert Sleeps(a + b) == (if a[0].Sleep? then [a[0].us] else []) + (Sleeps(t) + Sleeps(b));
      assert Sleeps(a) == (if a[0].Sleep? then [a[0].us] else []) + Sleeps(t);
    }
  }

  lemma {:induction false} MarksAppend(a: seq<Event>, b: seq<Event>)
    ensures Marks(a + b) == Marks(a) + Marks(b)
  {
    if a == [] {
      assert a + b == b;
    } else {
      var t := a[1..];
      assert (a + b)[0] == a[0];
      assert (a + b)[1..] == t + b;
      MarksAppend(t, b);
      assert Marks(a + b) == (if a[0].Trace? then [a[0].c] else []) + (Marks(t) + Marks(b));
      assert Marks(a) == (if a[0].Trace? then [a[0].c] else []) + Marks(t);
    }
  }

  lemma {:induction false} DiagCountAppend(a: seq<Event>, b: seq<Event>)
    ensures DiagCount(a + b) == DiagCount(a) + DiagCount(b)
  {
    if a == [] {
      assert a + b == b;
    } else {
      var t := a[1..];
      assert (a + b)[0] == a[0];
      assert (a + b)[1..] == t + b;
      DiagCountAppend(t, b);
      assert DiagCount(a + b) == (if a[0].Diag? then 1 else 0) + (DiagCount(t) + DiagCount(b));
      assert DiagCount(a) == (if a[0].Diag? then 1 else 0) + DiagCount(t);
    }
  }

  /** Every projection of a log distributes over concatenation. */
  lemma ProjectionsAppend(a: seq<Event>, b: seq<Event>)
    ensures LedWrites(a + b) == LedWrites(a) + LedWrites(b)
    ensures Sleeps(a + b) == Sleeps(a) + Sleeps(b)
    ensures Marks(a + b) == Marks(a) + Marks(b)
    ensures DiagCount(a + b) == DiagCount(a) + DiagCount(b)
    ensures TotalSleep(a + b) == TotalSleep(a) + TotalSleep(b)
  {
    LedWritesAppend(a, b);
    SleepsAppend(a, b);
    MarksAppend(a, b);
    DiagCountAppend(a, b);
    SumAppend(Sleeps(a), Sleeps(b));
  }

  // ---------------------------------------------------------------------
  // Shapes of LED-write and sleep sequences

  /** Every write is `id` or 0, and the last write (if any) is 0: the LED
      is lit with nothing but `id` and is left off. */
  predicate LeftOff(w: seq<int>, id: int)
  {
    (forall k :: 0 <= k < |w| ==> w[k] == id || w[k] == 0) &&
    (|w| > 0 ==> w[|w| - 1] == 0)
  }

  lemma LeftOffAppend(a: seq<int>, b: seq<int>, id: int)
    requires LeftOff(a, id) && LeftOff(b, id)
    ensures LeftOff(a + b, id)
  {
  }

  /** `w` is `n` blinks of `id`: the k-th pair of writes is `id` then 0. */
  predicate BlinkPairs(w: seq<int>, id: int, n: nat)
  {
    |w| == 2 * n && forall k :: 0 <= k < n ==> w[2 * k] == id && w[2 * k + 1] == 0
  }

  lemma BlinkPairsSnoc(w: seq<int>, id: int, n: nat)
    requires BlinkPairs(w, id, n)
    ensures BlinkPairs(w + [id, 0], id, n + 1)
  {
    var w' := w + [id, 0];
    forall k | 0 <= k < n + 1 ensures w'[2 * k] == id && w'[2 * k + 1] == 0 {
      if k < n {
        assert w'[2 * k] == w[2 * k] && w'[2 * k + 1] == w[2 * k + 1];
      }
    }
  }

  /** `z` sleeps each entry of `es` followed by S. */
  predicate SleepPairs(z: seq<int>, es: seq<int>)
  {
    |z| == 2 * |es| && forall k :: 0 <= k < |es| ==> z[2 * k] == es[k] && z[2 * k + 1] == S
  }

  lemma SleepPairsSnoc(z: seq<int>, es: seq<int>, e: int)
    requires SleepPairs(z, es)
    ensures SleepPairs(z + [e, S], es + [e])
  {
    var z', es' := z + [e, S], es + [e];
    forall k | 0 <= k < |es'| ensures z'[2 * k] == es'[k] && z'[2 * k + 1] == S {
      if k < |es| {
        assert z'[2 * k] == z[2 * k] && z'[2 * k + 1] == z[2 * k + 1] && es'[k] == es[k];
      }
    }
  }

  /** One blink: write `id`, sleep `len`, write 0, sleep S. */
  function BlinkEvents(id: int, len: int): seq<Event>
  {
    [SetLed(id), Sleep(len), SetLed(0x0), Sleep(S)]
  }

  /** A blink lights `id` and then leaves the LED off, and takes `len + S`
      in all. */
  lemma BlinkShape(id: int, len: int)
    ensures var es := BlinkEvents(id, len);
      LedWrites(es) == [id, 0] && Sleeps(es) == [len, S] && TotalSleep(es) == len + S &&
      Marks(es) == [] && DiagCount(es) == 0
  {
    var t4: seq<Event> := [];
    var t3 := [Sleep(S)] + t4;
    var t2 := [SetLed(0x0)] + t3;
    var t1 := [Sleep(len)] + t2;
    var es := [SetLed(id)] + t1;
    assert es == BlinkEvents(id, len);
    ProjectionsCons(Sleep(S), t4);
    ProjectionsCons(SetLed(0x0), t3);
    ProjectionsCons(Sleep(len), t2);
    ProjectionsCons(SetLed(id), t1);
    assert Sum([S]) == S;
  }

  /** The trace character of a table entry: '-' for L, '.' for S. */
  function MarkChar(e: int): char
  {
    if e == L then '-' else '.'
  }

  /** The trace written before blinking entry `e`, when verbose. */
  function MarkEvents(verbose: bool, e: int): seq<Event>
  {
    if verbose && e == L then [Trace('-')]
    else if verbose && e == S then [Trace('.')]
    else []
  }

  /** One turn of the loop in `morse`: the entry's trace character, then a
      blink with the entry as on-duration. */
  function StepEvents(verbose: bool, id: int, e: int): seq<Event>
  {
    MarkEvents(verbose, e) + BlinkEvents(id, e)
  }

  /** The turns of the loop in `morse` over `entries`, in order. */
  function StepsEvents(verbose: bool, id: int, entries: seq<int>): seq<Event>
  {
    if entries == [] then []
    else StepsEvents(verbose, id, entries[..|entries| - 1]) + StepEvents(verbose, id, entries[|entries| - 1])
  }

  /** One more turn of the loop in `morse`: a log holding the steps for the
      first i entries, extended by the trace and blink of entry i, holds the
      steps for the first i + 1 entries. */
  lemma StepsExtend(verbose: bool, id: int, row: seq<int>, i: nat, h: seq<Event>, before: seq<Event>, after: seq<Event>)
    requires i < |row|
    requires before == h + StepsEvents(verbose, id, row[..i])
    requires after == before + MarkEvents(verbose, row[i]) + BlinkEvents(id, row[i])
    ensures after == h + StepsEvents(verbose, id, row[..i + 1])
  {
    var prefix := row[..i + 1];
    assert prefix[..i] == row[..i] && prefix[i] == row[i];
    var steps := StepsEvents(verbose, id, row[..i]);
    assert StepsEvents(verbose, id, prefix) == steps + StepEvents(verbose, id, row[i]);
    AppendAssoc(before, MarkEvents(verbose, row[i]), BlinkEvents(id, row[i]));
    AppendAssoc(h, steps, StepEvents(verbose, id, row[i]));
  }

  /** What `morse(id, row)` does: the steps for the active entries of the row,
      then one space when verbose. */
  function MorseEvents(verbose: bool, id: int, row: seq<int>): seq<Event>
  {
    StepsEvents(verbose, id, ActiveEntries(row)) + (if verbose then [Trace(' ')] else [])
  }

  /** What the main loop does with one byte. */
  function ByteEvents(verbose: bool, b: byte): seq<Event>
  {
    match Classify(b)
    case Encode(r) => MorseEvents(verbose, LedCap, Table[r])
    case WordGap => BlinkEvents(0x0, WS)
    case NotAscii => [Diag]
  }

  /** What the main loop does with a sequence of bytes, one after another. */
  function BytesEvents(verbose: bool, bs: seq<byte>): seq<Event>
  {
    if bs == [] then [] else BytesEvents(verbose, bs[..|bs| - 1]) + ByteEvents(verbose, bs[|bs| - 1])
  }

  /** One more byte adds its own events at the end. */
  lemma BytesSnoc(verbose: bool, bs: seq<byte>, b: byte)
    ensures BytesEvents(verbose, bs + [b]) == BytesEvents(verbose, bs) + ByteEvents(verbose, b)
  {
    assert (bs + [b])[..|bs|] == bs;
  }

  /** A log holding the events of `prefix` after `h`, extended by the events
      of byte `b`, holds the events of `prefix + [b]` after `h`. */
  lemma BytesSnocAfter(verbose: bool, prefix: seq<byte>, b: byte, h: seq<Event>, before: seq<Event>, after: seq<Event>)
    requires before == h + BytesEvents(verbose, prefix)
    requires after == before + ByteEvents(verbose, b)
    ensures after == h + BytesEvents(verbose, prefix + [b])
  {
    BytesSnoc(verbose, prefix, b);
    AppendAssoc(h, BytesEvents(verbose, prefix), ByteEvents(verbose, b));
  }

  /** One more turn of the byte loop of `main`. */
  lemma BytesExtend(verbose: bool, data: seq<byte>, i: nat, h: seq<Event>, before: seq<Event>, after: seq<Event>)
    requires i < |data|
    requires before == h + BytesEvents(verbose, data[..i])
    requires after == before + ByteEvents(verbose, data[i])
    ensures after == h + BytesEvents(verbose, data[..i + 1])
  {
    var prefix, next := data[..i], data[..i + 1];
    assert next == prefix + [data[i]];
    BytesSnocAfter(verbose, prefix, data[i], h, before, after);
  }

  /** The LED mask once the byte loop has processed `bs`, starting from
      `led`: a recognised byte ends with the LED off, an unrecognised one
      leaves it as it was. */
  function LedAfter(bs: seq<byte>, led: int): int
  {
    if bs == [] then led
    else if Classify(bs[|bs| - 1]).NotAscii? then LedAfter(bs[..|bs| - 1], led)
    else 0
  }

  /** One more turn of the byte loop, seen on the LED. */
  lemma LedAfterExtend(data: seq<byte>, i: nat, led: int)
    requires i < |data|
    ensures LedAfter(data[..i + 1], led)
         == if Classify(data[i]).NotAscii? then LedAfter(data[..i], led) else 0
  {
    assert data[..i + 1][..i] == data[..i];
  }

  /** The byte loop leaves the LED as it was exactly when every byte is
      unrecognised, and off otherwise. */
  lemma {:induction false} LedAfterOffOrKept(bs: seq<byte>, led: int)
    ensures LedAfter(bs, led)
         == if forall k :: 0 <= k < |bs| ==> Classify(bs[k]).NotAscii? then led else 0
  {
    if bs != [] {
      var init := bs[..|bs| - 1];
      LedAfterOffOrKept(init, led);
      assert forall k :: 0 <= k < |init| ==> init[k] == bs[k];
    }
  }

  /** The bytes of successive reads, joined. */
  function Flatten(chunks: seq<seq<byte>>): seq<byte>
  {
    if chunks == [] then [] else Flatten(chunks[..|chunks| - 1]) + chunks[|chunks| - 1]
  }

  /** One more turn of the read loop of `main`. */
  lemma ChunksExtend(verbose: bool, chunks: seq<seq<byte>>, j: nat, h: seq<Event>, before: seq<Event>, after: seq<Event>)
    requires j < |chunks|
    requires before == h + BytesEvents(verbose, Flatten(chunks[..j]))
    requires after == before + BytesEvents(verbose, chunks[j])
    ensures after == h + BytesEvents(verbose, Flatten(chunks[..j + 1]))
  {
    var prefix := chunks[..j + 1];
    assert prefix[..j] == chunks[..j] && prefix[j] == chunks[j];
    assert Flatten(prefix) == Flatten(chunks[..j]) + chunks[j];
    BytesAppend(verbose, Flatten(chunks[..j]), chunks[j]);
    AppendAssoc(h, BytesEvents(verbose, Flatten(chunks[..j])), BytesEvents(verbose, chunks[j]));
  }

  /** The whole run from the snapshot on: every byte read, then the write
      that restores the snapshot. */
  function RunEvents(verbose: bool, saved: int, chunks: seq<seq<byte>>): seq<Event>
  {
    BytesEvents(verbose, Flatten(chunks)) + [SetLed(saved)]
  }

  // ---------------------------------------------------------------------
  // Properties of `morse`

  /** The trace and blink of one entry: the blink's LED writes and sleeps,
      and the entry's trace character when verbose. */
  lemma StepProjections(verbose: bool, id: int, e: int)
    requires e == S || e == L
    ensures var ev := StepEvents(verbose, id, e);
      LedWrites(ev) == [id, 0] && Sleeps(ev) == [e, S] && TotalSleep(ev) == e + S &&
      DiagCount(ev) == 0 && Marks(ev) == (if verbose then [MarkChar(e)] else [])
  {
    var m := MarkEvents(verbose, e);
    assert m == [] || m[1..] == [];
    BlinkShape(id, e);
    ProjectionsAppend(m, BlinkEvents(id, e));
  }

  /** The steps over `es` blink once per entry, in order: the k-th blink
      writes `id` then 0. */
  lemma {:induction false} StepsWrites(verbose: bool, id: int, es: seq<int>)
    requires forall k :: 0 <= k < |es| ==> es[k] == S || es[k] == L
    ensures BlinkPairs(LedWrites(StepsEvents(verbose, id, es)), id, |es|)
  {
    if es != [] {
      var init, last := es[..|es| - 1], es[|es| - 1];
      StepsWrites(verbose, id, init);
      var prev := StepsEvents(verbose, id, init);
      var step := StepEvents(verbose, id, last);
      assert StepsEvents(verbose, id, es) == prev + step;
      StepProjections(verbose, id, last);
      LedWritesAppend(prev, step);
      BlinkPairsSnoc(LedWrites(prev), id, |init|);
    }
  }

  /** Every LED write of the steps is `id` or 0, and the last one is 0. */
  lemma {:induction false} StepsLeaveOff(verbose: bool, id: int, es: seq<int>)
    requires forall k :: 0 <= k < |es| ==> es[k] == S || es[k] == L
    ensures LeftOff(LedWrites(StepsEvents(verbose, id, es)), id)
  {
    if es != [] {
      var init, last := es[..|es| - 1], es[|es| - 1];
      StepsLeaveOff(verbose, id, init);
      var prev := StepsEvents(verbose, id, init);
      var step := StepEvents(verbose, id, last);
      assert StepsEvents(verbose, id, es) == prev + step;
      StepProjections(verbose, id, last);
      LedWritesAppend(prev, step);
      LeftOffAppend(LedWrites(prev), [id, 0], id);
    }
  }

  /** The k-th blink of the steps over `es` sleeps `es[k]` then S. */
  lemma {:induction false} StepsSleeps(verbose: bool, id: int, es: seq<int>)
    requires forall k :: 0 <= k < |es| ==> es[k] == S || es[k] == L
    ensures SleepPairs(Sleeps(StepsEvents(verbose, id, es)), es)
  {
    if es != [] {
      var init, last := es[..|es| - 1], es[|es| - 1];
      assert es == init + [last];
      StepsSleeps(verbose, id, init);
      var prev := StepsEvents(verbose, id, init);
      var step := StepEvents(verbose, id, last);
      assert StepsEvents(verbose, id, es) == prev + step;
      StepProjections(verbose, id, last);
      SleepsAppend(prev, step);
      SleepPairsSnoc(Sleeps(prev), init, last);
    }
  }

  /** The steps over `es` sleep the sum of the entries plus S per entry in
      all, and report nothing. */
  lemma {:induction false} StepsTotal(verbose: bool, id: int, es: seq<int>)
    requires forall k :: 0 <= k < |es| ==> es[k] == S || es[k] == L
    ensures TotalSleep(StepsEvents(verbose, id, es)) == Sum(es) + |es| * S
    ensures DiagCount(StepsEvents(verbose, id, es)) == 0
  {
    if es != [] {
      var init, last := es[..|es| - 1], es[|es| - 1];
      assert es == init + [last];
      StepsTotal(verbose, id, init);
      var prev := StepsEvents(verbose, id, init);
      var step := StepEvents(verbose, id, last);
      assert StepsEvents(verbose, id, es) == prev + step;
      StepProjections(verbose, id, last);
      SleepsAppend(prev, step);
      SumAppend(Sleeps(prev), Sleeps(step));
      DiagCountAppend(prev, step);
      SumAppend(init, [last]);
    }
  }

  /** With verbose on, the steps over `es` trace one '-' or '.' per entry, in
      order; with verbose off they trace nothing. */
  lemma {:induction false} StepsMarks(verbose: bool, id: int, es: seq<int>)
    requires forall k :: 0 <= k < |es| ==> es[k] == S || es[k] == L
    ensures var m := Marks(StepsEvents(verbose, id, es));
      |m| == (if verbose then |es| else 0) &&
      (verbose ==> forall k :: 0 <= k < |es| ==> m[k] == MarkChar(es[k]))
  {
    if es != [] {
      var init, last := es[..|es| - 1], es[|es| - 1];
      assert es == init + [last];
      StepsMarks(verbose, id, init);
      var prev := StepsEvents(verbose, id, init);
      var step := StepEvents(verbose, id, last);
      assert StepsEvents(verbose, id, es) == prev + step;
      StepProjections(verbose, id, last);
      MarksAppend(prev, step);
    }
  }

  /** The blinks of `morse` on a five-entry row: one per entry before the
      first sentinel (so one to MorseDim), in row order, each lighting `id`
      for that entry and then off for S; nothing reported. */
  lemma MorseBlinks(verbose: bool, id: int, row: seq<int>)
    requires WellFormedRow(row)
    ensures var a, ev := ActiveEntries(row), MorseEvents(verbose, id, row);
      1 <= |a| <= MorseDim &&
      BlinkPairs(LedWrites(ev), id, |a|) && SleepPairs(Sleeps(ev), a) &&
      TotalSleep(ev) == Sum(a) + |a| * S &&
      DiagCount(ev) == 0
  {
    var a := ActiveEntries(row);
    var steps: seq<Event>, tail: seq<Event> := StepsEvents(verbose, id, a), if verbose then [Trace(' ')] else [];
    var ev := MorseEvents(verbose, id, row);
    assert LedWrites(ev) == LedWrites(steps) && Sleeps(ev) == Sleeps(steps) &&
           TotalSleep(ev) == TotalSleep(steps) && DiagCount(ev) == DiagCount(steps) by {
      assert ev == steps + tail;
      ProjectionsCons(Trace(' '), []);
      ProjectionsAppend(steps, tail);
      assert LedWrites(steps) + [] == LedWrites(steps) && Sleeps(steps) + [] == Sleeps(steps);
    }
    StepsWrites(verbose, id, a);
    StepsSleeps(verbose, id, a);
    StepsTotal(verbose, id, a);
  }

  /** The trace of `morse` on a five-entry row: nothing when not verbose;
      when verbose, one '-' or '.' per entry before the first sentinel, in
      row order, then exactly one space. */
  lemma MorseMarks(verbose: bool, id: int, row: seq<int>)
    requires WellFormedRow(row)
    ensures var a, m := ActiveEntries(row), Marks(MorseEvents(verbose, id, row));
      (!verbose ==> m == []) &&
      (verbose ==> |m| == |a| + 1 && m[|a|] == ' ' &&
                   forall k :: 0 <= k < |a| ==> m[k] == MarkChar(a[k]))
  {
    var a := ActiveEntries(row);
    var steps: seq<Event>, tail: seq<Event> := StepsEvents(verbose, id, a), if verbose then [Trace(' ')] else [];
    var ev := MorseEvents(verbose, id, row);
    assert Marks(ev) == Marks(steps) + (if verbose then " " else "") by {
      assert ev == steps + tail;
      ProjectionsCons(Trace(' '), []);
      MarksAppend(steps, tail);
    }
    StepsMarks(verbose, id, a);
    if verbose {
      var m := Marks(steps);
      assert Marks(ev) == m + " ";
      assert forall k :: 0 <= k < |a| ==> Marks(ev)[k] == m[k];
    }
  }

  /** `morse` on a five-entry row: one blink per entry before the first
      sentinel (so at most MorseDim), each with that entry as on-duration, in
      row order; then, when verbose, exactly one space after the marks. */
  lemma MorseShape(verbose: bool, id: int, row: seq<int>)
    requires WellFormedRow(row)
    ensures var a, ev := ActiveEntries(row), MorseEvents(verbose, id, row);
      1 <= |a| <= MorseDim &&
      BlinkPairs(LedWrites(ev), id, |a|) && SleepPairs(Sleeps(ev), a) &&
      TotalSleep(ev) == Sum(a) + |a| * S &&
      DiagCount(ev) == 0 &&
      (!verbose ==> Marks(ev) == []) &&
      (verbose ==> |Marks(ev)| == |a| + 1 && Marks(ev)[|a|] == ' ' &&
                   forall k :: 0 <= k < |a| ==> Marks(ev)[k] == MarkChar(a[k]))
  {
    MorseBlinks(verbose, id, row);
    MorseMarks(verbose, id, row);
  }

  /** The LED writes of `morse` on a well-formed row: one to five
      blinks, each writing `id` then 0, so the LED is left off. */
  lemma MorseWrites(verbose: bool, id: int, row: seq<int>)
    requires WellFormedRow(row)
    ensures var w := LedWrites(MorseEvents(verbose, id, row));
      2 <= |w| <= 2 * MorseDim && LeftOff(w, id) &&
      DiagCount(MorseEvents(verbose, id, row)) == 0
  {
    var a := ActiveEntries(row);
    var steps: seq<Event>, tail: seq<Event> := StepsEvents(verbose, id, a), if verbose then [Trace(' ')] else [];
    assert LedWrites(MorseEvents(verbose, id, row)) == LedWrites(steps) &&
           DiagCount(MorseEvents(verbose, id, row)) == DiagCount(steps) by {
      assert MorseEvents(verbose, id, row) == steps + tail;
      ProjectionsCons(Trace(' '), []);
      LedWritesAppend(steps, tail);
      DiagCountAppend(steps, tail);
      assert LedWrites(steps) + [] == LedWrites(steps);
    }
    StepsWrites(verbose, id, a);
    assert |LedWrites(steps)| == 2 * |a|;
    StepsLeaveOff(verbose, id, a);
    StepsTotal(verbose, id, a);
  }

  // ---------------------------------------------------------------------
  // Properties of the dispatch of one byte

  /** A letter or digit plays its row on the CAPS LOCK LED: one blink per
      mark of its row (one to five), each lighting CAPS LOCK and then
      clearing it, so the last write clears it; and no diagnostic. */
  lemma EncodedByte(verbose: bool, b: byte)
    requires IsUpper(b) || IsLower(b) || IsDigit(b)
    ensures var w := LedWrites(ByteEvents(verbose, b));
      BlinkPairs(w, LedCap, |ActiveEntries(Table[Classify(b).row])|) &&
      2 <= |w| <= 2 * MorseDim && LeftOff(w, LedCap) &&
      DiagCount(ByteEvents(verbose, b)) == 0
  {
    var row := Table[Classify(b).row];
    assert WellFormedRow(row) by {
      TableWellFormed();
    }
    assert ByteEvents(verbose, b) == MorseEvents(verbose, LedCap, row);
    MorseWrites(verbose, LedCap, row);
    MorseShape(verbose, LedCap, row);
  }

  /** A space is one blink with the LED off: both writes are 0, the total
      sleep is WS + S, and there is no trace and no diagnostic. */
  lemma WordGapByte(verbose: bool, b: byte)
    requires IsSpace(b)
    ensures LedWrites(ByteEvents(verbose, b)) == [0, 0]
    ensures TotalSleep(ByteEvents(verbose, b)) == WS + S == 8 * S
    ensures Marks(ByteEvents(verbose, b)) == [] && DiagCount(ByteEvents(verbose, b)) == 0
  {
    BlinkShape(0x0, WS);
  }

  /** Any other byte gives exactly one diagnostic and nothing else. */
  lemma NotAsciiByte(verbose: bool, b: byte)
    requires !(IsUpper(b) || IsLower(b) || IsDigit(b) || IsSpace(b))
    ensures ByteEvents(verbose, b) == [Diag]
    ensures DiagCount(ByteEvents(verbose, b)) == 1
    ensures LedWrites(ByteEvents(verbose, b)) == [] && Sleeps(ByteEvents(verbose, b)) == []
  {
  }

  // ---------------------------------------------------------------------
  // Properties of the main loop

  /** Processing a buffer in two parts is processing it whole: nothing is
      carried from one byte to the next. */
  lemma {:induction false} BytesAppend(verbose: bool, a: seq<byte>, b: seq<byte>)
    ensures BytesEvents(verbose, a + b) == BytesEvents(verbose, a) + BytesEvents(verbose, b)
  {
    if b == [] {
      assert a + b == a;
    } else {
      var init, last := b[..|b| - 1], b[|b| - 1];
      assert b == init + [last];
      assert a + b == (a + init) + [last];
      BytesAppend(verbose, a, init);
      BytesSnoc(verbose, a + init, last);
      BytesSnoc(verbose, init, last);
      AppendAssoc(BytesEvents(verbose, a), BytesEvents(verbose, init), ByteEvents(verbose, last));
    }
  }

  /** An unrecognised byte inserts one diagnostic and processing goes on
      with the next byte as if the byte were absent. */
  lemma NotAsciiSkipped(verbose: bool, pre: seq<byte>, b: byte, post: seq<byte>)
    requires Classify(b).NotAscii?
    ensures BytesEvents(verbose, pre + [b] + post)
         == BytesEvents(verbose, pre) + [Diag] + BytesEvents(verbose, post)
  {
    BytesAppend(verbose, pre + [b], post);
    BytesAppend(verbose, pre, [b]);
    assert [b][..0] == [];
  }

  /** The number of bytes that are neither letter, digit nor space. */
  function NotAsciiCount(bs: seq<byte>): nat
  {
    if bs == [] then 0 else NotAsciiCount(bs[..|bs| - 1]) + (if Classify(bs[|bs| - 1]).NotAscii? then 1 else 0)
  }

  /** What every byte's events have in common, whatever the byte: one
      diagnostic exactly when it is unrecognised; LED writes that light at
      most CAPS LOCK and end with the LED off; no trace when verbose is off. */
  lemma ByteSummary(verbose: bool, b: byte)
    ensures var ev := ByteEvents(verbose, b);
      DiagCount(ev) == (if Classify(b).NotAscii? then 1 else 0) &&
      LeftOff(LedWrites(ev), LedCap) &&
      (!verbose ==> Marks(ev) == [])
  {
    if IsUpper(b) || IsLower(b) || IsDigit(b) {
      EncodedByte(verbose, b);
      if !verbose {
        TableWellFormed();
        MorseShape(false, LedCap, Table[Classify(b).row]);
      }
    } else if IsSpace(b) {
      WordGapByte(verbose, b);
    } else {
      NotAsciiByte(verbose, b);
    }
  }

  /** There is one diagnostic per unrecognised byte, and no other. */
  lemma {:induction false} DiagnosticsCounted(verbose: bool, bs: seq<byte>)
    ensures DiagCount(BytesEvents(verbose, bs)) == NotAsciiCount(bs)
  {
    if bs != [] {
      var init, b := bs[..|bs| - 1], bs[|bs| - 1];
      DiagnosticsCounted(verbose, init);
      ProjectionsAppend(BytesEvents(verbose, init), ByteEvents(verbose, b));
      ByteSummary(verbose, b);
    }
  }

  /** While bytes are processed the LED is only ever lit with CAPS LOCK, and
      after any write it is left off. */
  lemma {:induction false} OnlyCapsLockLit(verbose: bool, bs: seq<byte>)
    ensures LeftOff(LedWrites(BytesEvents(verbose, bs)), LedCap)
  {
    if bs != [] {
      var init, b := bs[..|bs| - 1], bs[|bs| - 1];
      var prev, cur := BytesEvents(verbose, init), ByteEvents(verbose, b);
      assert BytesEvents(verbose, bs) == prev + cur;
      OnlyCapsLockLit(verbose, init);
      ByteSummary(verbose, b);
      LedWritesAppend(prev, cur);
      LeftOffAppend(LedWrites(prev), LedWrites(cur), LedCap);
    }
  }

  /** The input "Hi 3" is played as H, i, a word gap and 3, with no
      diagnostic. */
  lemma HiThree(verbose: bool)
    ensures var bs: seq<byte> := [0x48, 0x69, 0x20, 0x33];
      Classify(bs[0]) == Encode(7) && Classify(bs[1]) == Encode(8) &&
      Classify(bs[2]) == WordGap && Classify(bs[3]) == Encode(29) &&
      DiagCount(BytesEvents(verbose, bs)) == 0
  {
    var bs: seq<byte> := [0x48, 0x69, 0x20, 0x33];
    DiagnosticsCounted(verbose, bs);
    var b3, b2, b1 := bs[..3], bs[..2], bs[..1];
    assert b3[..2] == b2 && b2[..1] == b1 && b1[..0] == [];
    assert NotAsciiCount(b1) == 0;
    assert NotAsciiCount(b2) == 0;
    assert NotAsciiCount(b3) == 0;
  }

  /** The verbose trace of `morse` on a well-formed row: one mark per
      active entry, then a space. */
  lemma MorseTrace(id: int, row: seq<int>, marks: string)
    requires WellFormedRow(row)
    requires var a := ActiveEntries(row);
      |marks| == |a| && forall k :: 0 <= k < |a| ==> marks[k] == MarkChar(a[k])
    ensures Marks(MorseEvents(true, id, row)) == marks + " "
  {
    var a := ActiveEntries(row);
    var steps := StepsEvents(true, id, a);
    StepsMarks(true, id, a);
    assert Marks(steps) == marks;
    MarksAppend(steps, [Trace(' ')]);
    ProjectionsCons(Trace(' '), []);
  }

  /** The verbose trace of a letter or digit: the marks of its row, then a
      space. */
  lemma EncodedTrace(b: byte, r: nat, marks: string)
    requires Classify(b) == Encode(r)
    requires var a := ActiveEntries(Table[r]);
      |marks| == |a| && forall k :: 0 <= k < |a| ==> marks[k] == MarkChar(a[k])
    ensures Marks(ByteEvents(true, b)) == marks + " "
  {
    assert WellFormedRow(Table[r]) by {
      TableWellFormed();
    }
    assert ByteEvents(true, b) == MorseEvents(true, LedCap, Table[r]);
    MorseTrace(LedCap, Table[r], marks);
  }

  /** With verbose off nothing is traced. */
  lemma {:induction false} QuietRun(bs: seq<byte>)
    ensures Marks(BytesEvents(false, bs)) == []
  {
    if bs != [] {
      var init, b := bs[..|bs| - 1], bs[|bs| - 1];
      QuietRun(init);
      ProjectionsAppend(BytesEvents(false, init), ByteEvents(false, b));
      ByteSummary(false, b);
    }
  }

  /** After all input the last LED write is the snapshot, and every write
      before it lights at most CAPS LOCK. */
  lemma RunRestores(verbose: bool, saved: int, chunks: seq<seq<byte>>)
    ensures var w := LedWrites(RunEvents(verbose, saved, chunks));
      |w| > 0 && w[|w| - 1] == saved &&
      forall k :: 0 <= k < |w| - 1 ==> w[k] == LedCap || w[k] == 0
  {
    OnlyCapsLockLit(verbose, Flatten(chunks));
    ProjectionsAppend(BytesEvents(verbose, Flatten(chunks)), [SetLed(saved)]);
  }
}
