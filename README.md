# mled: the Morse engine

mled plays text as Morse code on the keyboard's CAPS LOCK LED. It reads
bytes from a file or standard input. Each letter (either case) and each digit
is played from a constant five-entry table of short (S) and long (L) marks,
ended early by a sentinel (N). A space becomes a long blink with the LED
off. Any other byte gets a diagnostic on standard error. Before the first
byte the program saves the LED mask, and after the last byte it writes that
mask back. With `-v` it also traces each mark as `.` or `-` on standard
output, followed by a space after every character.

This project models that core of `src/mled.c`:

- the table `morsetable`;
- the functions `led`, `blink` and `morse`;
- the snapshot (`backupleds`), the read-and-dispatch loop and the final
  restore in `main`.

Everything observable is recorded as a log of events: LED writes, sleeps,
trace characters and diagnostics.

- `morse_table.dfy` (module `MorseTable`): the timing constants and the
  table, written exactly as the source has them. It also proves what
  every row looks like.
- `byte_class.dfy` (module `ByteClass`): how the main loop classifies one
  byte.
- `events.dfy` (module `Events`): functions that give, for each part of the
  program, the events it produces, and lemmas about those events. The
  lemmas cover blink counts and order, total sleep time, the trace, the
  diagnostics, and which LED masks are ever written.
- `console.dfy` (module `Mled`): the class `Console`. Its fields are the LED
  mask, the snapshot and the event log. Its methods are the imperative
  program (`led`, `blink`, the loop of `morse`, the dispatch, the byte loop
  and the read loop of `main`). Each method is proved to append exactly
  the events the matching function of `Events` gives.

The model follows the code of `src/mled.c` in these points:

- There is no clock mode in `src/mled.c`, so none is modelled.
- `morse` adds no extra pause after a character. The only gap after the
  last mark is the S pause inside `blink`. So a character takes
  `Sum(marks) + count * S` (`Events.MorseShape`).
- A space is `blink(0x0, WS)` with `WS = 7*S`, not 7 long units: the LED is
  written 0, then the program sleeps WS, writes 0 again and sleeps S.
- The source comments give S as 0.5 s and the word gap as 7×1.5 s. The
  macros say S = 250000 µs and WS = 7*S, and the macros are what is
  modelled.
- Only the byte `' '` is a word gap. A newline, tab or any other byte gets
  a diagnostic.
- The table is reproduced as written. Its row for `b` is the row for `d`
  (dah dit dit), and `MorseTable.RowBIsRowD` states this.

Input bytes are modelled as 0..255. Where `char` is signed (as on x86),
bytes from 0x80 up compare as negative. Either way they fall outside every
range the loop tests and get a diagnostic, so the classification is the
same.

## Model

| member | source | states |
|---|---|---|
| MorseTable.ActiveEntries | src/mled.c:104 | the entries `morse` visits are the longest sentinel-free prefix of the row: a prefix, no N in it, stopped by an N or the end of the row |
| MorseTable.ActiveEntriesUnique | src/mled.c:104 | any sentinel-free prefix that ends at an N or the end of the row is exactly the visited entries |
| MorseTable.TableWellFormed | src/mled.c:48-85 | there are 36 rows; each has 5 entries, 1 to 5 marks before the first N, only S or L before it and only N after it |
| MorseTable.WellFormedIntro | src/mled.c:48-85 | a five-entry row with marks up to its first sentinel and sentinels from there on is well formed |
| MorseTable.RowBIsRowD | src/mled.c:51-53 | the rows for `b` and `d` are both L S S N N, so `b` plays three marks, not the four of dah dit dit dit |
| ByteClass.Classify | src/mled.c:193-203 | a byte selects a row exactly when it is a letter or digit, and the row is inside the table and belongs to that letter (either case) or digit; it is a word gap exactly when it is `' '`; it is reported exactly when it is none of these |
| ByteClass.CaseFolded | src/mled.c:193-196 | the upper- and lower-case forms of the k-th letter both select row k |
| ByteClass.DigitRow | src/mled.c:197-198 | digit d selects row 26 + d |
| Events.BlinkShape | src/mled.c:95-100 | a blink writes `id` then 0, sleeps `len` then S (`len + S` in all), and traces and reports nothing |
| Events.StepProjections | src/mled.c:105-109 | one turn of the loop of `morse` writes `id` then 0, sleeps the entry then S, and traces `-` for L or `.` for S only when verbose |
| Events.StepsExtend | src/mled.c:104-110 | one more turn of the loop appends that entry's trace and blink to the steps for the entries before it |
| Events.StepsWrites | src/mled.c:104-110 | the loop blinks once per entry, in order: the k-th pair of LED writes is `id` then 0 |
| Events.StepsLeaveOff | src/mled.c:104-110 | every LED write of the loop is `id` or 0, and the last is 0 |
| Events.StepsSleeps | src/mled.c:104-110 | the k-th blink sleeps the k-th entry, then S |
| Events.StepsTotal | src/mled.c:104-110 | the loop sleeps the sum of its entries plus S per entry, and reports nothing |
| Events.StepsMarks | src/mled.c:104-110 | when verbose the loop traces one `-` or `.` per entry, matching it; otherwise it traces nothing |
| Events.MorseBlinks | src/mled.c:102-110 | `morse` on a table row blinks once per mark before the first N (1 to 5 blinks), in order: the k-th pair of writes is `id` then 0, the k-th pair of sleeps is the mark then S, `Sum + count*S` in all, and nothing is reported |
| Events.MorseMarks | src/mled.c:104-111 | the trace of `morse` on a table row: nothing without verbose; with verbose, one `-` or `.` per mark in order, then exactly one space |
| Events.MorseShape | src/mled.c:102-112 | `morse` on a table row blinks once per mark before the first N (1 to 5 blinks), in order, with the mark as on-time and S off; it sleeps `Sum + count*S`; it reports nothing; when verbose it traces the marks followed by exactly one space, and otherwise nothing |
| Events.MorseWrites | src/mled.c:102-112 | `morse` on a table row writes 2 to 10 LED masks, each `id` or 0, the last 0, and reports nothing |
| Events.MorseTrace | src/mled.c:104-111 | with verbose on, `morse` traces one mark per active entry, then a space |
| Events.EncodedTrace | src/mled.c:193-198 | with verbose on, a letter or digit traces the marks of its row, then a space |
| Events.EncodedByte | src/mled.c:193-198 | a letter or digit plays one blink per mark of its row (1 to 5): each pair of LED writes is CAPS LOCK (0x4) then 0, so it writes 2 to 10 masks, leaves the LED off, and reports nothing |
| Events.WordGapByte | src/mled.c:199-200 | a space writes 0 twice, sleeps WS + S = 8*S, and traces and reports nothing |
| Events.NotAsciiByte | src/mled.c:201-202 | any other byte produces one diagnostic and nothing else: no LED write and no sleep |
| Events.BytesSnoc | src/mled.c:192-204 | one more byte appends that byte's events |
| Events.BytesSnocAfter | src/mled.c:192-204 | a log holding the events of some bytes, extended by the events of one more byte, holds the events of the longer byte sequence |
| Events.BytesExtend | src/mled.c:192-204 | one more turn of the byte loop extends the events for the bytes before it by that byte's events |
| Events.LedAfterExtend | src/mled.c:193-203 | one more byte leaves the LED off when it is a letter, digit or space, and as it was otherwise |
| Events.LedAfterOffOrKept | src/mled.c:192-204 | after the byte loop the LED is as it was exactly when no byte was a letter, digit or space, and off otherwise |
| Events.ChunksExtend | src/mled.c:191-205 | one more successful read appends the events of its bytes |
| Events.BytesAppend | src/mled.c:191-205 | processing bytes in two parts (two reads) is the same as processing them in one: no state carries from one byte or read to the next |
| Events.NotAsciiSkipped | src/mled.c:201-203 | an unrecognised byte inserts one diagnostic, and processing goes on with the next byte as if it were absent |
| Events.ByteSummary | src/mled.c:193-203 | every byte: one diagnostic exactly when it is unrecognised, LED writes of CAPS LOCK or 0 ending with 0, and no trace when not verbose |
| Events.DiagnosticsCounted | src/mled.c:201-202 | the number of diagnostics equals the number of bytes that are not a letter, digit or space |
| Events.OnlyCapsLockLit | src/mled.c:192-204 | while bytes are processed every LED write is CAPS LOCK or 0, and the last one is 0 |
| Events.HiThree | src/mled.c:193-203 | "Hi 3" is dispatched as rows 7 (`h`) and 8 (`i`), a word gap, and row 29 (`3`), with no diagnostic |
| Events.QuietRun | src/mled.c:43 | without `-v` nothing is written to standard output |
| Events.RunRestores | src/mled.c:188-207 | the last LED write of a run is the snapshot, and every write before it is CAPS LOCK or 0 |
| Mled.Console.constructor | src/mled.c:45-46 | the console starts with the given LED mask and an empty log, and `saved_led_state` starts at 0x0 |
| Mled.Console.Led | src/mled.c:87-93 | the LED mask becomes the value, and one write is logged |
| Mled.Console.Backup | src/mled.c:114-120 | the snapshot becomes the current LED mask |
| Mled.Console.Pause | src/mled.c:97-99 | `usleep`: one Sleep event carrying the duration is logged |
| Mled.Console.Emit | src/mled.c:43 | one trace character is logged when verbose, and nothing otherwise |
| Mled.Console.Report | src/mled.c:202 | one diagnostic is logged |
| Mled.Console.Blink | src/mled.c:95-100 | logs exactly the blink's events and leaves the LED off |
| Mled.Console.Morse | src/mled.c:102-112 | the loop logs exactly `MorseEvents`: the visited entries' traces and blinks, then the trailing space when verbose; the LED is left off after any blink |
| Mled.Console.Dispatch | src/mled.c:193-203 | the if-chain over one byte logs exactly that byte's events as `Classify` decides them, and leaves the LED off after a letter, digit or space and unchanged otherwise |
| Mled.Console.ProcessChunk | src/mled.c:192-204 | the byte loop over the first `s` bytes of the buffer logs exactly their events, in order, and leaves the LED as `LedAfter` gives: off once any letter, digit or space was played, unchanged otherwise |
| Mled.Console.ReadChunk | src/mled.c:191 | a successful read leaves the chunk at the start of the buffer |
| Mled.Console.Run | src/mled.c:188-207 | snapshot the LED, process every chunk read, then restore: the snapshot and the final LED are the initial mask, and the log is every byte's events followed by the restoring write |

## Left out

- Privilege check, signal registration, opening `/dev/console`, option
  parsing (`-v`, `-h` and the help text), and the choice of input file:
  these are process set-up around the core. The option parser hands the
  model only the verbose flag. The source opens `argv[1]` after
  `optind`, not `argv[0]`; that quirk is not modelled.
- Signal handlers (`sighandler`): they are asynchronous, so an interrupted
  run is not modelled. Only the normal path to the final restore is.
- Mled.Console.Led: an `ioctl` failure, which prints an error and exits, is
  not modelled; every LED write succeeds.
- Mled.Console.Backup: the same holds for the `KDGETLED` read. The
  snapshot always succeeds and reads the current mask.
- Mled.Console.Run: the input is given as the sequence of chunks that
  successive `read` calls return, each 1 to 1024 bytes. End of input ends
  the loop. A `read` error, which `size_t s` turns into a huge count, is
  not modelled.
- Real time: `usleep` is recorded as a `Sleep` event with its duration, and
  nothing about wall-clock time is claimed.
- The text of the messages and `fflush` calls: standard output is modelled
  as a sequence of trace characters, and a standard-error message as one
  `Diag` event.
- Closing the input and the console at the end: it has no effect on the
  LED or on the output.
- A binary clock mode does not exist in `src/mled.c` and is not part of
  this model.
