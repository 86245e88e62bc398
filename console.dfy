/** The stateful part of mled: the console whose LED the program writes,
    the snapshot it restores at the end, and the loops of `morse` and
    `main`. Every method is proved to append to the log exactly the events
    that the functions of module Events give. */
module Mled {
  import opened MorseTable
  import opened ByteClass
  import opened Events

  /** Size of the read buffer of `main`. */
  const BufferSize: nat := 1024

  class Console {
    /** The LED mask last written (KDSETLED). */
    var led: int
    /** The snapshot taken before morsing (saved_led_state). */
    var saved: int
    /** Whether -v was given: trace characters go to standard output. */
    const verbose: bool
    /** Everything observable the program has done so far, in order. */
    var events: seq<Event>

    /** The console as the program finds it: its LED shows `current`,
        nothing has been saved yet (saved_led_state starts at 0). */
    constructor (current: int, verbose: bool)
      ensures led == current && saved == 0x0 && this.verbose == verbose && events == []
    {
      led := current;
      saved := 0x0;
      this.verbose := verbose;
      events := [];
    }

    /** `led`: write a mask to the LED. A failing ioctl is not modelled. */
    method Led(value: int)
      modifies this`led, this`events
      ensures led == value
      ensures events == old(events) + [SetLed(value)]
    {
      led := value;
      events := events + [SetLed(value)];
    }

    /** `usleep`, recorded by its duration. */
    method Pause(us: int)
      modifies this`events
      ensures events == old(events) + [Sleep(us)]
    {
      events := events + [Sleep(us)];
    }

    /** The `verbose` macro: one character on standard output when -v was given. */
    method Emit(c: char)
      modifies this`events
      ensures events == old(events) + (if verbose then [Trace(c)] else [])
    {
      if verbose {
        events := events + [Trace(c)];
      }
    }

    /** The "non-ascii character found" message on standard error. */
    method Report()
      modifies this`events
      ensures events == old(events) + [Diag]
    {
      events := events + [Diag];
    }

    /** `backupleds`: snapshot the current LED mask. */
    method Backup()
      modifies this`saved
      ensures saved == led
    {
      saved := led;
    }

    /** `blink`: light `id` for `len`, then off for S. */
    method Blink(id: int, len: int)
      modifies this`led, this`events
      ensures led == 0
      ensures events == old(events) + BlinkEvents(id, len)
    {
      Led(id);
      Pause(len);
      Led(0x0);
      Pause(S);
    }

    /** `morse`: walk the row up to its first sentinel (at most MorseDim
        entries), tracing and blinking each entry, then trace one space. */
    method Morse(id: int, row: seq<int>)
      requires |row| == MorseDim
      modifies this`led, this`events
      ensures led == if ActiveEntries(row) == [] then old(led) else 0
      ensures events == old(events) + MorseEvents(verbose, id, row)
    {
      var i := 0;
      while i < MorseDim && row[i] != N
        invariant 0 <= i <= MorseDim
        invariant forall j :: 0 <= j < i ==> row[j] != N
        invariant led == if i == 0 then old(led) else 0
        invariant events == old(events) + StepsEvents(verbose, id, row[..i])
      {
        ghost var before := events;
        if row[i] == L {
          Emit('-');
        }
        if row[i] == S {
          Emit('.');
        }
        assert events == before + MarkEvents(verbose, row[i]);
        Blink(id, row[i]);
        StepsExtend(verbose, id, row, i, old(events), before, events);
        i := i + 1;
      }
      ActiveEntriesUnique(row, i);
      Emit(' ');
    }

    /** The classify-and-dispatch step of `main` for one byte: a letter or
        digit is played from its row on CAPS LOCK, a space is a word gap,
        anything else is reported. */
    method Dispatch(b: byte)
      modifies this`led, this`events
      ensures events == old(events) + ByteEvents(verbose, b)
      ensures led == if Classify(b).NotAscii? then old(led) else 0
    {
      TableWellFormed();
      if IsUpper(b) {
        var r := b as int - 'A' as int;
        assert Classify(b) == Encode(r);
        Morse(LedCap, Table[r]);
      } else if IsLower(b) {
        var r := b as int - 'a' as int;
        assert Classify(b) == Encode(r);
        Morse(LedCap, Table[r]);
      } else if IsDigit(b) {
        var r := b as int - '0' as int + 26;
        assert Classify(b) == Encode(r);
        Morse(LedCap, Table[r]);
      } else if IsSpace(b) {
        assert Classify(b) == WordGap;
        Blink(0x0, WS);
      } else {
        assert Classify(b) == NotAscii;
        Report();
      }
    }

    /** The body of the read loop of `main`: dispatch the `s` bytes just read. */
    method ProcessChunk(buf: array<byte>, s: nat)
      requires s <= buf.Length
      modifies this`led, this`events
      ensures led == LedAfter(buf[..s], old(led))
      ensures events == old(events) + BytesEvents(verbose, buf[..s])
    {
      ghost var data := buf[..s];
      var i := 0;
      while i < s
        invariant 0 <= i <= s
        invariant led == LedAfter(data[..i], old(led))
        invariant events == old(events) + BytesEvents(verbose, data[..i])
      {
        var b := buf[i];
        assert b == data[i];
        ghost var before := events;
        Dispatch(b);
        BytesExtend(verbose, data, i, old(events), before, events);
        LedAfterExtend(data, i, old(led));
        i := i + 1;
      }
      assert data[..s] == data;
    }

    /** What one successful `read` leaves in the buffer: the chunk, at its start. */
    static method ReadChunk(buf: array<byte>, chunk: seq<byte>)
      requires |chunk| <= buf.Length
      modifies buf
      ensures buf[..|chunk|] == chunk
    {
      forall k | 0 <= k < |chunk| {
        buf[k] := chunk[k];
      }
    }

    /** `main` from the snapshot on: save the LED, read the input chunk by
        chunk into the buffer and dispatch every byte, then restore the LED.
        Each chunk is what one `read` returned: between 1 and BufferSize bytes. */
    method Run(chunks: seq<seq<byte>>)
      requires forall j :: 0 <= j < |chunks| ==> 0 < |chunks[j]| <= BufferSize
      modifies this`led, this`saved, this`events
      ensures saved == old(led) && led == old(led)
      ensures events == old(events) + RunEvents(verbose, old(led), chunks)
    {
      Backup();
      var buf := new byte[BufferSize];
      var j := 0;
      while j < |chunks|
        invariant 0 <= j <= |chunks|
        invariant saved == old(led)
        invariant events == old(events) + BytesEvents(verbose, Flatten(chunks[..j]))
      {
        ghost var before := events;
        ReadChunk(buf, chunks[j]);
        ProcessChunk(buf, |chunks[j]|);
        ChunksExtend(verbose, chunks, j, old(events), before, events);
        j := j + 1;
      }
      assert chunks[..j] == chunks;
      Led(saved);
    }
  }
}
