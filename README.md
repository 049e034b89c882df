# tcode-c in Dafny

A model of the core of tcode-c, a C library for the T-Code text protocol that drives
linear, rotary, vibration and auxiliary actuators. The model covers four parts:

- **The token decoder** `tcode_parse_str` (module `Decoder`). It turns a token such as
  `L090`, `v1S50` or `R2I500` into a command. The token has a class letter and a
  channel digit, then digits that go to the magnitude, to the speed (after `S`) or to
  the interval (after `I`).
- **The text ring** `tcode_text_buffer_t` and its producer `tcode_getc` (module
  `TextRing`). These are 128 bytes with a write index `head` and a read index `tail`.
- **The command queue** `tcode_buffer_t` (module `Queue`). It is a doubly linked list of
  commands, with `enqueue`, `copy`, `empty`, `foreach`, `remove_idx` and
  `remove_duplicate`.
- **The session** (module `TCode`). The active queue `_tcode_buffer` and the pending
  queue `_pending_buffer` are fed by the tokenizer `tcode_parse_buffer` and walked by the
  tick `tcode_run_buffer`.

Each imperative routine is a Dafny method over the same state: an `array<byte>` for the
ring and a sequence of commands for each list. Each method is proved against a
specification function: `Decode`, `Push`, `ParseStep`, and `Notice` with `Tick`. Lemmas
then tie those functions to definitions that describe their results by the shape of the
input. Examples are the digit run after the channel read as a decimal fraction, the
digits of every `I` group read as an integer, and the unread bytes of the ring as a
window from `tail`.

The model follows the code wherever the code's names and comments, the header and
the sample program promise more:

- **`tcode_buffer_remove_idx` never removes anything**, although its name says it does.
  `tcode_run_buffer` calls it to retire finished entries (`src/tcode.c:33-34`). The walk
  post-decrements `idx` on every test while a node remains. So it always ends on NULL,
  or with `idx` decremented past zero to `SIZE_MAX`. Either way the early-return guard
  fires before the unlinking code; that guard returns unless `idx` is 0 and a node was
  found. Three consequences follow:
  - `enqueue` does not replace an earlier command with the same type and channel
    (`src/tcode_buffer.c:40`);
  - `tcode_run_buffer` never retires a finished command;
  - the unlinking code (`UnlinkAt`) is dead code.
- **Speed digits are a decimal fraction.** `S50` gives speed 0.5, like a magnitude. The
  comment at `src/tcode.c:147-148` reads `S10` as 10 per 100 ms. Interval digits form an
  integer, and a repeated `I` keeps shifting the same value.
- **There is no ramp.** The header promises ramping and tweening
  (`src/tcode.h:237-238`). But nothing sets `transition_magnitude` or
  `last_transition_ms`, so a tick leaves decoded commands as they are. Nothing clamps
  the magnitude a tick produces.
- **`tcode_parse_buffer` always returns 0**, whatever it consumed. The sample program
  prints a response only when the result is positive
  (`examples/serial_parse/src/main.c:21`).
- **An overflowing `tcode_getc` leaves `head == tail`**, so the buffer then reads as
  empty. Nothing in the sources says what an overflow should keep.

## Model

| member | source | states |
|---|---|---|
| Types.Decr | src/tcode_buffer.c:6 | `idx--` on a `size_t`: the result is `idx - 1` modulo 2^64, so 0 wraps to SIZE_MAX |
| Types.Incr | src/tcode.c:39 | `idx++` on a `size_t`: the result is `idx + 1` modulo 2^64 |
| Decoder.StrLen | src/tcode.c:66 | strlen: no NUL before the result, and a NUL at the result unless it is the end of the array |
| Decoder.CString | src/tcode.c:103 | the C string the decoder reads is a prefix of the char array and holds no NUL |
| Decoder.CStringUpTo | src/tcode.c:103 | a NUL at position k hides every byte after k from the decoder |
| Decoder.Step | src/tcode.c:104-133 | one byte after the channel: accepted exactly when it is a digit, S or I in either case, and it never changes the type, the channel, the ramp fields or the execute flag |
| Decoder.Run | src/tcode.c:103-136 | the loop over the rest of the token keeps the type, the channel, the ramp fields and the execute flag of its start state |
| Decoder.Decode | src/tcode.c:65-152 | a token that decodes has at least 3 bytes; its type comes from the class letter and is never TCODE_COMMAND_INVALID; its channel is the digit after the letter; the ramp fields and the flag are the caller's |
| Decoder.ParseStr | src/tcode.c:65-152 | the loop of tcode_parse_str returns TCODE_OK exactly when `Decode` accepts the C string, and then returns `Decode`'s command; it returns TCODE_FAIL otherwise; it never writes the ramp fields or the execute flag |
| Decoder.FracBounds | src/tcode.c:109-115 | digits added at decimal places 1, 2, ... sum to a value in [0, 1) |
| Decoder.FracRoundTrip | src/tcode.c:109-115 | scaling that fraction by 10^n for n digits gives back the integer the digits spell |
| Decoder.HornerDecimal | src/tcode.c:105-107 | `interval *= 10; interval += d` over a digit run appends the run's decimal value to the shifted start value |
| Decoder.HornerFromZero | src/tcode.c:105-107 | from 0 the interval digits accumulate to the integer they spell |
| Decoder.DecimalValueNonNegative | src/tcode.c:105-107 | the integer a digit run spells is never negative |
| Decoder.SpeedSumNonNegative | src/tcode.c:114-115 | the sum of the speed groups is never negative |
| Decoder.RunAccepts | src/tcode.c:103-133 | the loop after the channel succeeds exactly when every byte is a digit, S or I, in either case |
| Decoder.RunFrame | src/tcode.c:103-136 | the loop never writes the type, the channel, the ramp fields or the execute flag |
| Decoder.FracRunCons | src/tcode.c:109-110 | a digit run read from decimal place k puts its first digit at place k and the rest from place k + 1 |
| Decoder.MagnitudeStep | src/tcode.c:104-116 | one loop pass keeps the final magnitude equal to the start magnitude plus the current magnitude run |
| Decoder.SpeedStep | src/tcode.c:104-132 | one loop pass keeps the final speed equal to the start speed plus the current speed run plus every later S group |
| Decoder.SpeedStepDigit | src/tcode.c:109-115 | the digit case of SpeedStep |
| Decoder.SpeedStepSwitch | src/tcode.c:120-132 | the S/I case of SpeedStep: `magnitude_order` resets to 1 and the target changes |
| Decoder.IntervalStep | src/tcode.c:104-132 | one loop pass keeps the final interval equal to Horner's rule over the current interval run and every later I group |
| Decoder.RunMagnitude | src/tcode.c:103-136 | the magnitude ends as its start value plus the leading digit run as a fraction from the current decimal place; other targets leave it alone |
| Decoder.RunSpeed | src/tcode.c:103-136 | the speed ends as its start value plus the current run plus every S group, each as a fraction |
| Decoder.RunInterval | src/tcode.c:103-136 | the interval ends as Horner's rule over the digits of the current run and of every I group |
| Decoder.DecodeAccepts | src/tcode.c:66-136 | a token decodes exactly when it has at least 3 bytes: a class letter A, V, R or L, a digit, then only digits, S and I, letters in either case |
| Decoder.DecodeRun | src/tcode.c:66-136 | a successful decode starts the loop at the magnitude target and decimal place 1, after the class letter and the channel |
| Decoder.ClassOfValid | src/tcode.c:72-87 | a recognised class letter never gives TCODE_COMMAND_INVALID |
| Decoder.DecodeHeader | src/tcode.c:72-93 | the type comes from the class letter and the channel from the digit after it; the ramp fields and the flag come from the caller's command |
| Decoder.DecodeMagnitude | src/tcode.c:103-116 | the magnitude is the caller's value plus the digit run after the channel, read as 0.d1d2... |
| Decoder.DecodeSpeed | src/tcode.c:103-132 | the speed is the caller's value plus every S group read as 0.d1d2... |
| Decoder.DecodeInterval | src/tcode.c:103-132 | the interval is the caller's value with the digits of every I group shifted in |
| Decoder.DecodeFields | src/tcode.c:65-152 | a successful decode, field by field, and nothing else written |
| Decoder.DecodeFromDefault | src/tcode.c:159 | decoded from a default command: a valid class, channel 0..9, magnitude in [0, 1), no negative speed or interval, no ramp, the flag as passed |
| Decoder.DefaultMagnitude | src/tcode.c:109-113 | from a zero magnitude the decoded magnitude lies in [0, 1), and scaled by 10^n it is the integer its n digits spell |
| Decoder.DefaultInterval | src/tcode.c:105-107 | from a zero interval the decoded interval is the integer the I digits spell |
| Decoder.TwoDigitMagnitude | src/tcode.c:72-116 | a linear token on channel 0 with digits d then 0 decodes to magnitude d/10 |
| Decoder.DecodeLinearExamples | src/tcode.c:65-152 | "L090" decodes to magnitude 0.9 and "L010" to 0.1, both linear on channel 0 |
| Decoder.DecodeSpeedExample | src/tcode.c:72-132 | "v1S50" is accepted in lower case and gives vibrate channel 1 with speed 0.5 |
| Decoder.DecodeIntervalExample | src/tcode.c:103-132 | "L0I1I2" gives interval 12: a repeated I keeps shifting into the same interval |
| Decoder.DecodeRejectExamples | src/tcode.c:66-131 | "D0" (too short), "Q01" (unknown class), "LX5" (no channel digit) and "L05X" (stray letter) fail |
| TextRing.WrapIsMod | src/tcode.c:174 | the ring's wrap-around agrees with `% TCODE_TEXT_BUFFER_LEN` |
| TextRing.Push | src/tcode.c:214-224 | what tcode_getc does to the ring: TCODE_OK exactly when the bytes fit in the free room, otherwise TCODE_BUFFER_OVERFLOW with `head` on `tail`; `tail` never moves |
| TextRing.Chunk | src/tcode.c:215-221 | the bytes getc delivers before the first 0xFF (or EOF) form a prefix of the stream that holds no 0xFF |
| TextRing.WrittenSnoc | src/tcode.c:218 | storing one more byte at the next cell changes exactly that cell |
| TextRing.WrittenNothing | src/tcode.c:214-217 | storing no bytes changes no cell |
| TextRing.WrapSucc | src/tcode.c:219 | `(head + 1) % len` after `pos` steps is `head + pos + 1` wrapped |
| TextRing.MeetsTail | src/tcode.c:220 | after `pos` writes, `head` meets `tail` exactly when the free room is used up |
| TextRing.GetcStep | src/tcode.c:218-220 | one pass of the tcode_getc loop: one more byte stored, `head` advanced, and the overflow test true exactly at the room |
| TextRing.PushResult | src/tcode.c:217-224 | the loop's two exits, EOF after n bytes or overflow at the room, give exactly `Push` |
| TextRing.PushContents | src/tcode.c:214-224 | bytes that fit are appended to the unread contents, in order, and `tail` stays |
| TextRing.PushOverflows | src/tcode.c:220 | on overflow `head` lands on `tail`, so nothing reads as unread |
| TextRing.PushFromEmpty | src/tcode.c:214-224 | on an empty buffer 127 bytes fit and are read back in order; the 128th overflows |
| TextRing.AdvanceTail | src/tcode.c:185 | moving `tail` over u unread bytes drops exactly those bytes from the front of the contents |
| TextRing.SignedStream | src/tcode.c:215-221 | the bytes a signed-char loop stores, EOF included as 0xFF, as many as asked for |
| TextRing.GetcSignedChar | src/tcode.c:214-224 | tcode_getc as written, where plain `char` is signed: it always returns TCODE_BUFFER_OVERFLOW, with `head` on `tail` and `tail` unmoved |
| TextRing.SignedCharOverflows | src/tcode.c:215-220 | with a signed `char`, the loop reports TCODE_BUFFER_OVERFLOW on every stream and leaves the buffer reading as empty |
| TextRing.SignedCharEmptyStream | src/tcode.c:214-224 | an empty stream on an empty buffer: the intended loop returns TCODE_OK and changes nothing, the signed-char loop overflows |
| TextRing.TextBuffer.constructor | src/tcode.h:155-159 | TCODE_TEXT_BUFFER_DEFAULT: zeroed cells, `head == tail == 0`, no unread bytes |
| TextRing.TextBuffer.Getc | src/tcode.c:214-224 | tcode_getc: the status and the new buffer are `Push` of the old buffer and the bytes before the first 0xFF; `tail` is untouched; after TCODE_OK it has made one getc call per stored byte plus the call that returned 0xFF, after an overflow exactly as many calls as the free room |
| Queue.Walk | src/tcode_buffer.c:5-8 | the walk that opens tcode_buffer_remove_idx: it stops on a node of the list or on NULL, and when it stops on a node `idx` has wrapped to SIZE_MAX |
| Queue.WalkStops | src/tcode_buffer.c:5-8 | the walk stops on node `idx` with `idx` wrapped to SIZE_MAX when that node exists, and on NULL otherwise |
| Queue.RemoveIdxReturnsEarly | src/tcode_buffer.c:10-12 | for every list length and every index, the early-return guard holds |
| Queue.CommandQueue.constructor | src/tcode_buffer.h:23-26 | TCODE_BUFFER_DEFAULT: an empty list |
| Queue.CommandQueue.RemoveIdx | src/tcode_buffer.c:4-31 | tcode_buffer_remove_idx leaves the list as it was, for every index |
| Queue.CommandQueue.UnlinkAt | src/tcode_buffer.c:14-30 | the unreachable unlinking: the node leaves the list and the others keep their order |
| Queue.CommandQueue.RemoveDuplicate | src/tcode_buffer.c:33-46 | tcode_buffer_remove_duplicate leaves the list as it was |
| Queue.CommandQueue.Enqueue | src/tcode_buffer.c:48-71 | the command becomes the new last entry, the earlier entries stay in order, and the call returns the command |
| Queue.CommandQueue.Copy | src/tcode_buffer.c:73-79 | every entry of the source list is appended, in order |
| Queue.CommandQueue.Empty | src/tcode_buffer.c:81-90 | the list is empty afterwards |
| Queue.CommandQueue.Foreach | src/tcode_buffer.c:92-100 | the visitor sees every entry once, in order, with indices 0, 1, ..., and each entry becomes what the visitor made of it |
| TCode.FindTerminator | src/tcode.c:173-177 | the first space or newline in the unread bytes, or none when there is none |
| TCode.ParseStep | src/tcode.c:158-212 | one tcode_parse_buffer call: it consumes nothing, and changes no queue, exactly when no terminator is buffered; otherwise it consumes up to and including a terminator; the active queue only grows at its end, and at most one command joins the queues |
| TCode.ParseStepIs | src/tcode.c:173-209 | the tokenizer's outcome in closed form, given how many bytes it consumed |
| TCode.ParseStepConsumes | src/tcode.c:168-192 | a call consumes exactly one token and its terminator, or nothing and no queue change when no terminator is buffered |
| TCode.ParseStepQueues | src/tcode.c:194-209 | a space adds the decoded token to the pending queue only; a newline moves the pending queue, with the token when it decoded, onto the end of the active queue |
| TCode.DecodedToken | src/tcode.c:159-184 | a token decoded from the tokenizer's default command is a well-formed decoded command |
| TCode.ParseStepKeepsDecoded | src/tcode.c:158-212 | the tokenizer keeps both queues made of decoded commands, with none of the pending ones flagged for immediate execution |
| TCode.Notice | src/tcode.c:28-31 | the command the callback receives: the entry's type and magnitude, every other field at its default |
| TCode.Tick | src/tcode.c:33-37 | a tick changes only the magnitude; it stays put exactly when the entry has neither interval nor speed, or a zero transition; otherwise it moves by the transition magnitude |
| TCode.TickDecoded | src/tcode.c:25-37 | a decoded command is not changed by a tick, and the callback receives its type and magnitude |
| TCode.TickUnclamped | src/tcode.c:36 | a tick can push the magnitude above 1 |
| TCode.TwoLinearTokens | src/tcode.c:158-212 | "L090 L010\n" in two calls: five bytes each, and both commands are active in order, the second flagged for immediate execution |
| TCode.SpaceToken | src/tcode.c:177-204 | "L090 " goes to the pending queue |
| TCode.NewlineToken | src/tcode.c:177-209 | "L010\n" moves the pending queue, with the new command, onto the active queue |
| TCode.FirstToken | src/tcode.c:173-184 | a four-byte token followed by a terminator is the first token, and it decodes as `Decode` says |
| TCode.TokenString | src/tcode.c:178-190 | the `flat` copy, NUL-terminated at the terminator, holds the token's C string |
| TCode.ScanToken | src/tcode.c:158-192 | `buffer_len` and the token loop: the bytes consumed end at the first terminator, or are 0 with TCODE_FAIL when there is none; the decoder's result is `Token` of the unread bytes; the execute flag is set exactly when the terminator is a newline |
| TCode.Session.constructor | src/tcode.c:8-9 | both queues start empty and are distinct lists |
| TCode.Session.ParseBuffer | src/tcode.c:158-212 | tcode_parse_buffer: `tail` moves past the bytes `ParseStep` consumes, the unread bytes lose exactly those, the queues become `ParseStep`'s, and the result is 0 |
| TCode.Session.RunBuffer | src/tcode.c:20-43 | tcode_run_buffer: the callback receives each active entry's type and magnitude, in order; each entry is then ticked in place, none is removed, and the result is TCODE_OK |

## Left out

- `tcode_getc` reads a `FILE*`. The stream is a finite byte sequence, and reading past
  its end gives EOF, which is 0xFF as a `char`.
- TextRing.TextBuffer.Getc: models `c != 0xFF` as a comparison of unsigned bytes, the
  evidently intended reading. The signed-char behaviour is modelled separately under
  "## Findings".
- The `printf` calls (`src/tcode.c:195-201`, `src/tcode_buffer.c:53`) are output only.
  They are left out.
- `tcode_buffer_enqueue` when `malloc` fails: the C code prints and then dereferences
  NULL. The model assumes the allocation succeeds. `free` has no counterpart, because
  Dafny memory is managed.
- `float` and `powf` are modelled as exact real arithmetic, so single-precision rounding
  is not modelled.
- Nodes and their `first`/`last`/`next`/`prev` pointers are a sequence in list order.
  Pointer identity and the aliasing of nodes are not modelled.
- Queue.CommandQueue.Copy: requires the source list to differ from the target. Copying a
  list onto itself makes the C loop walk nodes it keeps appending, so it never ends.
- Queue.CommandQueue.Foreach: the visitor is a pure function from (index, entry) to the
  new entry, and the index is an unbounded `nat` rather than a `size_t`. A visitor with
  other effects is not modelled.
- TCode.Session.RunBuffer: the callback is the returned sequence of the commands it
  receives. `ms` is never read by the source, so it is unused here too.
- TCode.Session.ParseBuffer: the data callback `cb` and the `response`/`resplen` buffer
  are never used by the source, so they are not parameters. The result is 0 as a
  `uint64`.
- TCode.Session.ParseBuffer: the C code sets `tail` inside the token loop. The model sets
  it after the loop, to the same value `(tail + used) % 128`.
- Decoder.ParseStr: on TCODE_FAIL the partly written command is described only by the
  fields it never writes. `tcode_parse_buffer` discards a failed decode except for the
  execute flag.
- `toupper` and `isdigit` follow the C locale, so bytes 0x80 and above are neither
  digits nor letters. Where plain `char` is signed, C passes those bytes to `toupper`
  and `isdigit` as negative values, which is undefined behaviour; the model does not
  capture that.
- The stubs `tcode_send_command`, `tcode_queue_command`, `tcode_flush_queue`,
  `tcode_queue_commands`, `tcode_send_commands` and `tcode_parse_stream`
  (`src/tcode.c:45-63`, `154-156`) only return a constant and are left out.
- The name table `tcode_command_type_str` is used only by `printf`, so it is left out.
  The sample program `examples/serial_parse/src/main.c` is not part of this model.
- The interval and speed transition blocks (`src/tcode.c:140-149`) are empty, so there is
  nothing to model.

## Findings

| source | as written | input that shows it | evidently intended | confidence | as-written member | corrected member |
|---|---|---|---|---|---|---|
| src/tcode.c:215-217 | the byte from getc is kept in a plain `char` and compared with the int 0xFF; where `char` is signed it is at most 127 and never equals 255, so the loop stores EOF as 0xFF and stops only on overflow | an empty stream on an empty buffer: TCODE_BUFFER_OVERFLOW instead of TCODE_OK | stop at EOF, or at a 0xFF byte, and return TCODE_OK | not executed; applies where `char` is signed, as with GCC on x86 | TextRing.SignedCharOverflows | TextRing.TextBuffer.Getc |
