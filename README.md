# serial-fg-60-scales in Dafny

A model of the browser driver for FG-60 serial scales. The model has two parts.

The first part is the protocol logic, proved in full:

- the line reassembly in `listenPort`, where every received chunk is decoded
  and appended to a text buffer, and each CR LF terminated message is split off
  and handed to the listener;
- the decoder `processScalesData`, which trims a message and looks for the
  first frame such as `ST,+01234.50 kg` anywhere in it. It returns the
  header, the unit, the operand and the value, or nothing.

The second part is the `Scales` session around that logic. The session holds
an optional port, writer and reader. It connects, sends `Q`/`Z` commands and
tears the connection down. The session is a class with those three fields.
Everything the browser answers is a `Transport` value passed in:

- the paired ports;
- the port the user picks;
- whether opening succeeds;
- which streams the port has;
- the chunks its reader yields.

A ghost trace `events` records what the session does to the world, in order:
opening, callbacks, writes, and cancel, release and close calls.

Modules:

- `Wrappers`: `Option` and `Outcome`.
- `Text`: bytes, `TextEncoder`/`TextDecoder` on ASCII text (one character per
  byte), the ECMAScript whitespace class, and `trim`.
- `SerialPort` (src/utils/serial-port.ts): JavaScript `includes`, `split` and
  `join` on CR LF; the specification functions `CompleteMessages` and
  `Pending` of a received text; and the loops of `listenPort` as methods
  proved against them.
- `ScalesData` (`processScalesData` and the enums of src/classes/Scales.ts):
  - the pattern becomes an explicit tokenizer, `MatchAt`, tried from the left
    by `Exec`;
  - the language of the pattern is given independently by `Render`, which
    prints a frame;
  - values are signed integer hundredths.
- `Scales` (the `Scales` class): commands, options, the transport, the event
  trace and the session class.

Behaviours of the code that the model follows as written:

- The unit alternatives of the pattern are `kg|PC|lb|pz`, while the enum
  member `WEIGHT_OUNCE` is `'oz'`. An ounce reading is therefore never
  decoded (`OunceNeverDecoded`, `RejectOunce`). A `pz` frame decodes with a
  unit that no enum member has (`PzOutsideUnitEnum`). This is why
  `MessageData.unit` holds the captured text rather than an enum member.
- `disconnect` has no `try`. The first teardown step that throws ends it, and
  the later steps do not run. The fields are never cleared, so
  `isPortOpened` stays true after a teardown.
- The pattern is not anchored, so a frame anywhere in the trimmed message is
  accepted, and the leftmost one wins.
- Consecutive CR LF pairs yield an empty message.

## Model

| member | source | states |
|---|---|---|
| SerialPort.IndexOfDelimiter | src/utils/serial-port.ts:53-55 | the result is -1 exactly when the text holds no CR LF; otherwise a CR LF starts there and none starts earlier |
| SerialPort.Includes | src/utils/serial-port.ts:53 | `includes('\r\n')` scans from the left and holds only of text of two characters or more; `IncludesIffDelimiterAt` gives its full meaning |
| SerialPort.IncludesIffDelimiterAt | src/utils/serial-port.ts:53 | `includes('\r\n')` holds exactly when some position starts a CR LF |
| SerialPort.Split | src/utils/serial-port.ts:55 | `split('\r\n')` yields at least one piece, and no piece contains CR LF |
| SerialPort.JoinSplit | src/utils/serial-port.ts:55-56 | joining the pieces of a split with CR LF gives the text back |
| SerialPort.Join | src/utils/serial-port.ts:56 | `join('\r\n')` of a non-empty list starts with its first piece; `JoinSplit` ties it to `split` |
| SerialPort.SplitOffFirst | src/utils/serial-port.ts:55-56 | one pass emits exactly the text before the first CR LF and keeps exactly the text after it, so the buffer shrinks by at least two characters |
| SerialPort.TakeMessage | src/utils/serial-port.ts:53-58 | one pass emits the next complete message and leaves a strictly shorter buffer with the same remaining messages and the same final tail |
| SerialPort.CompleteMessages | src/utils/serial-port.ts:53-59 | no message released from a buffer contains CR LF |
| SerialPort.Pending | src/utils/serial-port.ts:53-59 | the text left in the buffer contains no CR LF, so an incomplete tail is kept rather than emitted |
| SerialPort.NoDelimiterNoMessage | src/utils/serial-port.ts:53 | a buffer without CR LF releases nothing and keeps everything |
| SerialPort.CompleteMessagesStep | src/utils/serial-port.ts:53-58 | the messages of a buffer are its text before the first CR LF followed by the messages of the rest |
| SerialPort.EmptyMessageBetweenDelimiters | src/utils/serial-port.ts:55-58 | a buffer starting with CR LF releases an empty message first |
| SerialPort.Conservation | src/utils/serial-port.ts:50-56 | the messages, each followed by CR LF, then the kept tail, are exactly the received text: nothing lost, nothing duplicated |
| SerialPort.MessagesOfTerminated | src/utils/serial-port.ts:53-59 | messages without CR LF, sent each with CR LF and followed by an unterminated tail, come out as exactly those messages in order, with the tail kept |
| SerialPort.FirstDelimiterOfPrefix | src/utils/serial-port.ts:53-55 | appending text does not move the first CR LF of a text that already has one |
| SerialPort.StepOfExtension | src/utils/serial-port.ts:50-58 | when the buffer already holds a CR LF, its first message is released first, whatever is appended |
| SerialPort.ChunkBoundary | src/utils/serial-port.ts:42-60 | buffering `x` and then `y` releases the same messages in the same order, and keeps the same tail, as buffering `x + y` at once, wherever the cut falls |
| SerialPort.NextChunk | src/utils/serial-port.ts:48-59 | appending chunk `i` to the buffer left by chunks before `i` gives the messages and the tail of all chunks up to `i` |
| SerialPort.ExtractMessages | src/utils/serial-port.ts:53-59 | the inner loop emits exactly the complete messages of its buffer, in order, and leaves exactly the pending tail |
| SerialPort.ListenPort | src/utils/serial-port.ts:28-69 | without a reader nothing is emitted; with one, the messages emitted over all chunks are the complete messages of the concatenated bytes, and the buffer ends as their pending tail |
| Text.EncodeAscii | src/classes/Scales.ts:83-84 | encoding ASCII text gives one byte per character, carrying its code |
| Text.DecodeAscii | src/utils/serial-port.ts:50 | decoding gives one character per byte, with that code |
| Text.DecodeEncode | src/utils/serial-port.ts:50 | decoding undoes encoding |
| Text.DecodeConcat | src/utils/serial-port.ts:50 | decoding does not depend on where the byte stream is cut |
| Text.TrimStart | src/classes/Scales.ts:178 | the result is a suffix; everything dropped is whitespace; it does not start with whitespace |
| Text.TrimEnd | src/classes/Scales.ts:178 | the result is a prefix; everything dropped is whitespace; it does not end with whitespace |
| Text.Trim | src/classes/Scales.ts:178 | `trim` returns a slice of the text surrounded only by whitespace, which neither starts nor ends with whitespace |
| Text.TrimUntouched | src/classes/Scales.ts:178 | text without leading or trailing whitespace is unchanged |
| ScalesData.HeaderCode | src/classes/Scales.ts:15-20 | every `MessageHeader` value is one of the pattern's header alternatives |
| ScalesData.UnitCode | src/classes/Scales.ts:22-27 | every `MessageUnit` value has two characters, and it is one of the pattern's unit alternatives exactly when the member is not `WEIGHT_OUNCE` |
| ScalesData.DecimalValue | src/classes/Scales.ts:201 | a digit string of length n reads as a number below 10^n |
| ScalesData.DecimalValueConcat | src/classes/Scales.ts:201 | reading `a + b` is reading `a` scaled by 10^\|b\| plus reading `b` |
| ScalesData.AlternativesByChar | src/classes/Scales.ts:182 | the character tests agree with the header alternatives `ST\|QT\|US\|OL` and the unit alternatives `kg\|PC\|lb\|pz` |
| ScalesData.RenderLayout | src/classes/Scales.ts:182 | a valid frame prints as 15 characters, with each group at its fixed offset |
| ScalesData.MatchAt | src/classes/Scales.ts:182 | when the tokenizer accepts at a position, the text there is exactly a valid frame printed |
| ScalesData.MatchAtComplete | src/classes/Scales.ts:182 | wherever a valid frame is printed, the tokenizer accepts it with exactly those groups |
| ScalesData.ParseRender | src/classes/Scales.ts:182 | parsing undoes printing, whatever text surrounds the frame |
| ScalesData.Exec | src/classes/Scales.ts:183-188 | a match found by the unanchored search starts at or after the search start, and the tokenizer accepts there with the reported groups |
| ScalesData.ExecLeftmost | src/classes/Scales.ts:183-188 | the search skips only positions where the pattern fails; when it finds nothing, the pattern fails everywhere |
| ScalesData.NoFrameWithoutMatch | src/classes/Scales.ts:182-186 | where the tokenizer fails, no valid frame is printed |
| ScalesData.HeaderOfCode | src/classes/Scales.ts:197 | a matched header maps to the enum member with that string value |
| ScalesData.NumberInHundredths | src/classes/Scales.ts:201 | `Number` of a `ddddd.dd` group is at most 99999.99, that is 9999999 hundredths |
| ScalesData.ValueGroup | src/classes/Scales.ts:182 | the value group is the five integral digits, the point, and the two fraction digits |
| ScalesData.NumberOfValueGroup | src/classes/Scales.ts:201 | the value in hundredths is the seven digits read with the point dropped |
| ScalesData.ConvertGroups | src/classes/Scales.ts:195-212 | the header, unit and operand are the matched groups; the value is the digits read in hundredths and negated exactly when the operand is `-`; the unit is one of `kg`/`PC`/`lb`/`pz`; the magnitude is at most 9999999 |
| ScalesData.ProcessScalesData | src/classes/Scales.ts:176-213 | a reading has a pattern unit, a magnitude of at most 9999999 hundredths, and a sign that agrees with its operand |
| ScalesData.ProcessScalesDataSpec | src/classes/Scales.ts:176-213 | nothing is returned exactly when no valid frame occurs anywhere in the trimmed message; otherwise the reading is the one the leftmost frame stands for |
| ScalesData.DecodeOneFrame | src/classes/Scales.ts:176-213 | a message that is exactly one valid frame decodes to the reading of that frame: the header member of its code, its unit and operand, and its seven digits in hundredths, negated for `-` |
| ScalesData.RejectFifteen | src/classes/Scales.ts:178-186 | a 15-character message with no surrounding whitespace, rejected by the tokenizer at its start, has no reading |
| ScalesData.TwoDigits | src/classes/Scales.ts:201 | two digits read positionally |
| ScalesData.FiveDigits | src/classes/Scales.ts:201 | five digits read positionally |
| ScalesData.DecodeStableWeight | src/classes/Scales.ts:176-213 | `ST,+01234.50 kg` decodes to a stable weight of 123450 hundredths in `kg`, operand `+` |
| ScalesData.DecodeNegativeCount | src/classes/Scales.ts:176-213 | `QT,-00012.30 PC` decodes to a stable count of -1230 hundredths in `PC`, operand `-` |
| ScalesData.ShortMessageRejected | src/classes/Scales.ts:178-186 | a message shorter than a frame after trimming has no reading |
| ScalesData.RejectUnknownHeader | src/classes/Scales.ts:182-186 | `XX,+00001.00 kg` has no reading |
| ScalesData.RejectShortValue | src/classes/Scales.ts:182-186 | `ST,+1.5 kg` has no reading |
| ScalesData.RejectOunce | src/classes/Scales.ts:182-186 | `ST,+00001.00 oz` has no reading |
| ScalesData.OunceNeverDecoded | src/classes/Scales.ts:26 | no message ever decodes to the unit of `WEIGHT_OUNCE` |
| ScalesData.PzOutsideUnitEnum | src/classes/Scales.ts:198 | `ST,+00001.00 pz` decodes with unit `pz`, which is the value of no `MessageUnit` member |
| ScalesData.PzIsNoUnitCode | src/classes/Scales.ts:22-27 | no `MessageUnit` member has the value `pz` |
| Scales.CommandChar | src/classes/Scales.ts:10-13 | each command is the letter `Q` or `Z`, an ASCII character |
| Scales.DefaultSerialOptions | src/classes/Scales.ts:222-229 | the defaults are 9600 baud, 7 data bits, even parity and 1 stop bit |
| Scales.EncodeCommand | src/classes/Scales.ts:83-84 | a command is sent as exactly three bytes: its letter, then 13 and 10 |
| Scales.CommandIsOneMessage | src/classes/Scales.ts:84 | a sent command, read back by the same CR LF framing, is exactly one message, its letter, with nothing left over |
| Scales.Deliveries | src/classes/Scales.ts:132-142 | with a `messageReceived` callback, each message is delivered once, in order, with its decoding; without one, nothing is delivered |
| Scales.StopIndex | src/classes/Scales.ts:145-162 | a teardown stops within its plan |
| Scales.TeardownPlan | src/classes/Scales.ts:145-162 | the teardown has no steps exactly when no handle is held |
| Scales.TeardownOrder | src/classes/Scales.ts:145-162 | the teardown steps are reader cancel, reader release, writer release and port close, in that order, each present exactly when its handle is held |
| Scales.TeardownStopsAtFirstFailure | src/classes/Scales.ts:145-162 | without a failing step every step runs and there is no error; otherwise the steps run up to and including the first failing one, all earlier steps succeed, and that step is the error |
| Scales.StopsAt | src/classes/Scales.ts:145-162 | a teardown stops at step k exactly when step k fails and no earlier step does |
| Scales.NothingToTearDown | src/classes/Scales.ts:145-162 | a session that never connected performs no cancel, release or close, and its teardown cannot fail |
| Scales.Scales.IsPortOpened | src/classes/Scales.ts:219-221 | the getter is true exactly when the session holds a port; the `Disconnect` contract uses it |
| Scales.Scales.SerialOptionsInUse | src/classes/Scales.ts:215-217 | the getter: the options given, else the defaults. Its use is stated through the `Open` events of `ConnectScale` and `ConnectScaleFromPrevTime` |
| Scales.Scales.constructor | src/classes/Scales.ts:44-59 | with `rememberLast` and exactly one paired port, the session connects to that port with the options in use. If the open fails, no handle is held and only the open attempt happened. Otherwise the session is in the connected state: port, writer, reader, and the open, callback, deliveries and release events in order. In every other case no handle is held and nothing has happened |
| Scales.Scales.ConnectScaleFromPrevTime | src/classes/Scales.ts:61-76 | unless `rememberLast` holds and exactly one port is paired, it returns with no error and changes nothing; otherwise it connects to that port, with the outcome of `connect` |
| Scales.Scales.ConnectScale | src/classes/Scales.ts:97-110 | when no port is picked it fails with `NoPortSelected` and changes nothing; otherwise it connects to the picked port |
| Scales.Scales.Connect | src/classes/Scales.ts:112-127 | if the open fails, the error is returned, the open attempt is all that happened, and no field changes. Otherwise the port becomes the session's port before `portConnected` sees it; the writer is the port's writer if it has a write stream; the reader is taken; and open, callback and read loop happen in that order |
| Scales.Scales.OpenPort | src/classes/Scales.ts:164-170 | it tries to open the port with the options given and reports whether that worked |
| Scales.Scales.ReadFromPort | src/classes/Scales.ts:129-143 | with a read stream, the reader becomes the session's reader, every complete message is delivered in order with its decoding, and the lock is released; without one, the old reader stays and nothing happens |
| Scales.Scales.SendCommand | src/classes/Scales.ts:78-95 | with a writer, exactly the command's three bytes are written to it, and that writer belongs to the session's port; without one, nothing is written; no field changes |
| Scales.Scales.Disconnect | src/classes/Scales.ts:145-162 | the teardown steps run in order up to the first that fails, whose error is returned; no field changes, so `isPortOpened` stays as it was |

## Left out

- Async behaviour and concurrency. Every operation runs to completion in call
  order. In particular:
  - the constructor's unawaited `connectScaleFromPrevTime` is modelled as a
    synchronous call whose result is dropped;
  - a `disconnect` racing an in-flight read is not modelled.
- The `done` flag of `reader.read()` and a failing read. Both are modelled as
  the read loop ending after the chunks given in `Transport.chunks`. The
  error path inside `listenPort` is reduced to its effect: the loop ends and
  the lock is released.
- Text encoding beyond ASCII. `TextDecoder` is taken as one character per
  byte. A multi-byte UTF-8 character split across two chunks is not modelled.
- Floating point. Values are exact signed hundredths, so the `-0` that
  `Number` yields for `-00000.00` is the integer 0.
- Console logging, and the browser capability check and the unused local
  options of the constructor (src/classes/Scales.ts:46-54).
- `getAllSerialPorts`, `requestPort` and the stream and lock calls of the
  browser. They become fields of `Transport`, or `Event` entries in the ghost
  trace. A rejected `requestPort` is the picked port being `None`.
- Scales.Scales.SendCommand: a rejected `writer.write` is caught and only
  logged, so the model records the write and does not distinguish success
  from failure.
- Scales.Scales.Disconnect: which steps throw is a parameter, because cancel,
  release and close are browser calls.
- Scales.Scales.ReadFromPort: the read loop is run to its end before
  `readFromPort` returns. Message deliveries interleaved with later reads
  appear in the same order in the trace.
- Scales.Scales.Connect: a `portConnected` callback is assumed not to throw.
  If it did, `connect` would reject after setting `serialPort`, with no writer
  taken and no read loop started. The model always takes the writer and runs
  the loop.
- Scales.Scales.ReadFromPort: a `messageReceived` callback is assumed not to
  throw. If it did, the `catch` of `listenPort` would end the read loop and
  release the lock, and no later message would be delivered. The model
  delivers every complete message.
- The duplicate `test`/`match` of the pattern: both run the same search on
  the same text, so the model searches once. The `null` check after `match`
  can never fire, so it is not modelled.
