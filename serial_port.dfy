/**
 * The transport helpers of src/utils/serial-port.ts.
 *
 * The browser serial API itself is not modelled: a port, its reader and its
 * writer are reduced to identities, and whatever the browser answers (the
 * paired ports, the open result, the chunks a reader yields) is passed in by
 * the caller. What is modelled in full is the line reassembly of `listenPort`:
 * a text buffer that every decoded chunk is appended to and from which each
 * complete CR LF terminated message is split off in turn.
 */
module SerialPort {
  import opened Wrappers
  import opened Text

  datatype Port = Port(id: nat)
  datatype Reader = Reader(port: Port)
  datatype Writer = Writer(port: Port)

  datatype Parity = NoParity | Even | Odd
  datatype SerialOptions = SerialOptions(baudRate: nat, dataBits: nat, parity: Parity, stopBits: nat)

  /** The message terminator the scale sends and expects: CR LF. */
  const Delimiter: string := "\r\n"

  predicate DelimiterAt(s: string, i: int)
  {
    0 <= i && i + 1 < |s| && s[i] == '\r' && s[i + 1] == '\n'
  }

  /** `s.includes('\r\n')`, scanning from the left; a CR LF needs two characters. */
  predicate Includes(s: string): (b: bool)
    ensures b ==> |s| >= 2
  {
    |s| >= 2 && ((s[0] == '\r' && s[1] == '\n') || Includes(s[1..]))
  }

  /** `Includes` holds exactly when a CR LF pair starts at some position. */
  lemma {:induction false} IncludesIffDelimiterAt(s: string)
    ensures Includes(s) <==> exists i :: 0 <= i < |s| && DelimiterAt(s, i)
  {
    if |s| >= 2 {
      IncludesIffDelimiterAt(s[1..]);
      forall i | 0 < i < |s|
        ensures DelimiterAt(s, i) <==> DelimiterAt(s[1..], i - 1)
      {
      }
      if !Includes(s) {
        forall i | 0 <= i < |s|
          ensures !DelimiterAt(s, i)
        {
          if i > 0 {
            assert !DelimiterAt(s[1..], i - 1);
          }
        }
      } else if !(s[0] == '\r' && s[1] == '\n') {
        var j :| 0 <= j < |s[1..]| && DelimiterAt(s[1..], j);
        assert DelimiterAt(s, j + 1);
      } else {
        assert DelimiterAt(s, 0);
      }
    }
  }

  /** `s.indexOf('\r\n')`: where the first delimiter starts, or -1 if there is none. */
  function IndexOfDelimiter(s: string): (k: int)
    ensures k == -1 <==> !Includes(s)
    ensures k != -1 ==> DelimiterAt(s, k) && !Includes(s[..k]) && !Includes(s[..k + 1])
  {
    if |s| < 2 then -1
    else if s[0] == '\r' && s[1] == '\n' then 0
    else
      var k := IndexOfDelimiter(s[1..]);
      if k == -1 then -1
      else
        assert s[..k + 1][1..] == s[1..][..k];
        assert s[..k + 2][1..] == s[1..][..k + 1];
        k + 1
  }

  /** The first delimiter of `x` is also the first one of any extension `x + y`. */
  lemma {:induction false} FirstDelimiterOfPrefix(x: string, y: string)
    requires Includes(x)
    ensures IndexOfDelimiter(x + y) == IndexOfDelimiter(x)
  {
    if !(x[0] == '\r' && x[1] == '\n') {
      assert (x + y)[1..] == x[1..] + y;
      FirstDelimiterOfPrefix(x[1..], y);
    }
  }

  /** After a delimiter-free message and a delimiter, the first delimiter is that one. */
  lemma {:induction false} FirstDelimiterAfterMessage(m: string, z: string)
    requires !Includes(m)
    ensures IndexOfDelimiter(m + Delimiter + z) == |m|
  {
    var s := m + Delimiter + z;
    if m != [] {
      assert s[1..] == m[1..] + Delimiter + z;
      assert s[1] == if |m| == 1 then '\r' else m[1];
      FirstDelimiterAfterMessage(m[1..], z);
    }
  }

  /** `s.split('\r\n')`: the pieces between consecutive delimiters, left to right. */
  function Split(s: string): (parts: seq<string>)
    ensures |parts| >= 1
    ensures forall i :: 0 <= i < |parts| ==> !Includes(parts[i])
    decreases |s|
  {
    var k := IndexOfDelimiter(s);
    if k == -1 then [s]
    else
      [s[..k]] + Split(s[k + 2..])
  }

  /** `parts.join('\r\n')` */
  function Join(parts: seq<string>): (r: string)
    ensures parts != [] ==> parts[0] <= r
  {
    if |parts| == 0 then ""
    else if |parts| == 1 then parts[0]
    else parts[0] + Delimiter + Join(parts[1..])
  }

  /** Joining the pieces of a split gives back the text. */
  lemma {:induction false} JoinSplit(s: string)
    ensures Join(Split(s)) == s
    decreases |s|
  {
    var k := IndexOfDelimiter(s);
    if k != -1 {
      SplitUnfold(s, k);
      JoinSplit(s[k + 2..]);
      AroundDelimiter(s, k);
    }
  }

  /**
   * One pass of the inner loop, `[message, ...rest] = buffer.split('\r\n')`
   * and `buffer = rest.join('\r\n')`, emits exactly the text before the first
   * delimiter and keeps exactly the text after it, so the buffer shrinks by
   * at least the two delimiter characters.
   */
  lemma SplitOffFirst(s: string, k: int)
    requires k == IndexOfDelimiter(s) != -1
    ensures Split(s)[0] == s[..k]
    ensures Join(Split(s)[1..]) == s[k + 2..]
    ensures |Join(Split(s)[1..])| <= |s| - 2
  {
    SplitUnfold(s, k);
    JoinSplit(s[k + 2..]);
  }

  /** The defining step of `split` when a delimiter is present. */
  lemma SplitUnfold(s: string, k: int)
    requires k == IndexOfDelimiter(s) != -1
    ensures |Split(s)| >= 2 && Split(s)[0] == s[..k] && Split(s)[1..] == Split(s[k + 2..])
  {
    var parts := Split(s);
    assert parts == [s[..k]] + Split(s[k + 2..]);
  }

  /** A text with a delimiter at `k` is what precedes it, the delimiter, and what follows. */
  lemma AroundDelimiter(s: string, k: int)
    requires DelimiterAt(s, k)
    ensures s == s[..k] + Delimiter + s[k + 2..]
  {
  }

  /** The messages a buffer holding `s` releases: every piece a delimiter terminates. */
  function CompleteMessages(s: string): (ms: seq<string>)
    ensures forall i :: 0 <= i < |ms| ==> !Includes(ms[i])
  {
    var parts := Split(s);
    parts[..|parts| - 1]
  }

  /** What a buffer holding `s` keeps: the text after the last delimiter. */
  function Pending(s: string): (r: string)
    ensures !Includes(r)
  {
    var parts := Split(s);
    parts[|parts| - 1]
  }

  /** The wire form of a sequence of messages: each one followed by CR LF. */
  function Terminated(ms: seq<string>): string
  {
    if ms == [] then "" else ms[0] + Delimiter + Terminated(ms[1..])
  }

  lemma TerminatedCons(m: string, ms: seq<string>, tail: string)
    ensures Terminated([m] + ms) + tail == m + Delimiter + (Terminated(ms) + tail)
  {
    assert ([m] + ms)[1..] == ms;
  }

  /** A buffer without a delimiter releases nothing and keeps everything. */
  lemma NoDelimiterNoMessage(s: string)
    requires !Includes(s)
    ensures CompleteMessages(s) == [] && Pending(s) == s
  {
  }

  /** Splitting off the first message leaves the rest of the work to the rest of the text. */
  lemma CompleteMessagesStep(s: string, k: int)
    requires k == IndexOfDelimiter(s) != -1
    ensures CompleteMessages(s) == [s[..k]] + CompleteMessages(s[k + 2..])
    ensures Pending(s) == Pending(s[k + 2..])
  {
    var parts, rest := Split(s), Split(s[k + 2..]);
    assert parts == [s[..k]] + rest;
    assert parts[..|parts| - 1] == [s[..k]] + rest[..|rest| - 1];
  }

  /** Two delimiters in a row release an empty message, as `split` yields `""` first. */
  lemma EmptyMessageBetweenDelimiters(s: string)
    ensures CompleteMessages(Delimiter + s) == [""] + CompleteMessages(s)
    ensures Pending(Delimiter + s) == Pending(s)
  {
    var t := Delimiter + s;
    assert t[2..] == s;
    CompleteMessagesStep(t, 0);
  }

  /** Nothing is lost or duplicated: the messages, re-terminated, followed by what is kept, are the text. */
  lemma {:induction false} Conservation(s: string)
    ensures Terminated(CompleteMessages(s)) + Pending(s) == s
    decreases |s|
  {
    var k := IndexOfDelimiter(s);
    if k != -1 {
      var rest := s[k + 2..];
      CompleteMessagesStep(s, k);
      Conservation(rest);
      AroundDelimiter(s, k);
      TerminatedCons(s[..k], CompleteMessages(rest), Pending(rest));
    } else {
      NoDelimiterNoMessage(s);
    }
  }

  /**
   * Delimiter-free messages sent with their terminators, followed by an
   * unterminated tail, come out as exactly those messages, in order, with the
   * tail kept back.
   */
  lemma {:induction false} MessagesOfTerminated(ms: seq<string>, tail: string)
    requires forall i :: 0 <= i < |ms| ==> !Includes(ms[i])
    requires !Includes(tail)
    ensures CompleteMessages(Terminated(ms) + tail) == ms
    ensures Pending(Terminated(ms) + tail) == tail
  {
    if ms == [] {
      NoDelimiterNoMessage(tail);
      assert Terminated(ms) + tail == tail;
    } else {
      var m, rest := ms[0], Terminated(ms[1..]) + tail;
      var s := Terminated(ms) + tail;
      assert s == m + Delimiter + rest;
      FirstDelimiterAfterMessage(m, rest);
      CompleteMessagesStep(s, |m|);
      assert s[..|m|] == m;
      assert s[|m| + 2..] == rest;
      MessagesOfTerminated(ms[1..], tail);
    }
  }

  /** Cutting `x + y` inside `x`. */
  lemma SliceOfExtension(x: string, y: string, k: int)
    requires 0 <= k <= |x| - 2
    ensures (x + y)[..k] == x[..k] && (x + y)[k + 2..] == x[k + 2..] + y
  {
  }

  /** When `x` already holds a delimiter, `x + y` releases the first message of `x` first. */
  lemma StepOfExtension(x: string, y: string, k: int)
    requires k == IndexOfDelimiter(x) != -1
    ensures CompleteMessages(x + y) == [x[..k]] + CompleteMessages(x[k + 2..] + y)
    ensures Pending(x + y) == Pending(x[k + 2..] + y)
  {
    FirstDelimiterOfPrefix(x, y);
    CompleteMessagesStep(x + y, k);
    SliceOfExtension(x, y, k);
  }

  /**
   * Chunk boundaries do not matter: buffering `x` and then `y` releases the
   * same messages, in the same order, and keeps the same tail, as buffering
   * `x + y` at once, wherever the cut falls (even between CR and LF).
   */
  lemma {:induction false} ChunkBoundary(x: string, y: string)
    ensures CompleteMessages(x + y) == CompleteMessages(x) + CompleteMessages(Pending(x) + y)
    ensures Pending(x + y) == Pending(Pending(x) + y)
    decreases |x|
  {
    var k := IndexOfDelimiter(x);
    if k != -1 {
      var rest := x[k + 2..];
      CompleteMessagesStep(x, k);
      StepOfExtension(x, y, k);
      ChunkBoundary(rest, y);
      var first, earlier, later := [x[..k]], CompleteMessages(rest), CompleteMessages(Pending(rest) + y);
      assert CompleteMessages(x + y) == first + (earlier + later);
      assert CompleteMessages(x) == first + earlier;
      assert first + (earlier + later) == (first + earlier) + later;
    } else {
      NoDelimiterNoMessage(x);
    }
  }

  /** What one pass of the inner loop of `listenPort` does to the buffer `s`. */
  lemma TakeMessage(s: string)
    requires Includes(s)
    ensures |Split(s)| >= 2
    ensures CompleteMessages(s) == [Split(s)[0]] + CompleteMessages(Join(Split(s)[1..]))
    ensures Pending(s) == Pending(Join(Split(s)[1..]))
    ensures |Join(Split(s)[1..])| < |s|
  {
    var k := IndexOfDelimiter(s);
    SplitOffFirst(s, k);
    SplitUnfold(s, k);
    CompleteMessagesStep(s, k);
  }

  /** Appending the next chunk to the buffer keeps it in step with the whole text received. */
  lemma NextChunk(chunks: seq<seq<byte>>, i: nat)
    requires i < |chunks|
    ensures var before := DecodeAscii(Concat(chunks[..i]));
      && CompleteMessages(DecodeAscii(Concat(chunks[..i + 1])))
         == CompleteMessages(before) + CompleteMessages(Pending(before) + DecodeAscii(chunks[i]))
      && Pending(DecodeAscii(Concat(chunks[..i + 1]))) == Pending(Pending(before) + DecodeAscii(chunks[i]))
  {
    ChunkBoundary(DecodeAscii(Concat(chunks[..i])), DecodeAscii(chunks[i]));
    assert chunks[..i + 1][..i] == chunks[..i];
    DecodeConcat(Concat(chunks[..i]), chunks[i]);
  }

  /** The bytes of all chunks, in arrival order. */
  function Concat(chunks: seq<seq<byte>>): seq<byte>
  {
    if chunks == [] then [] else Concat(chunks[..|chunks| - 1]) + chunks[|chunks| - 1]
  }

  /**
   * The inner loop of `listenPort`, `while (buffer.includes('\r\n'))`: splits
   * off and emits one message per pass until no delimiter is left. Returns
   * the emitted messages, in order, and the buffer it leaves.
   */
  method ExtractMessages(received: string) returns (messages: seq<string>, buffer: string)
    ensures messages == CompleteMessages(received)
    ensures buffer == Pending(received)
  {
    messages, buffer := [], received;
    while Includes(buffer)
      invariant CompleteMessages(received) == messages + CompleteMessages(buffer)
      invariant Pending(received) == Pending(buffer)
      decreases |buffer|
    {
      TakeMessage(buffer);
      var parts := Split(buffer);
      var message := parts[0];
      buffer := Join(parts[1..]);
      messages := messages + [message];
    }
    NoDelimiterNoMessage(buffer);
  }

  /**
   * The read loop of `listenPort` once the reader is requested: `reader` is
   * what `port.readable?.getReader()` gives, and `chunks` are the values
   * `reader.read()` delivers before it reports `done`. Returns the messages
   * handed to the listener, in order, and the unterminated text left in the
   * buffer when the stream ends. The result depends on the bytes received
   * only, not on how they were cut into chunks.
   */
  method ListenPort(reader: Option<Reader>, chunks: seq<seq<byte>>) returns (messages: seq<string>, buffer: string)
    ensures reader.None? ==> messages == [] && buffer == ""
    ensures reader.Some? ==> messages == CompleteMessages(DecodeAscii(Concat(chunks)))
    ensures reader.Some? ==> buffer == Pending(DecodeAscii(Concat(chunks)))
  {
    messages, buffer := [], "";
    if reader.None? {
      // "Cant read serial port" is thrown and caught inside listenPort
      return;
    }
    var i := 0;
    while i < |chunks|
      invariant 0 <= i <= |chunks|
      invariant messages == CompleteMessages(DecodeAscii(Concat(chunks[..i])))
      invariant buffer == Pending(DecodeAscii(Concat(chunks[..i])))
    {
      var emitted;
      emitted, buffer := ExtractMessages(buffer + DecodeAscii(chunks[i]));
      messages := messages + emitted;
      NextChunk(chunks, i);
      i := i + 1;
    }
    assert chunks[..i] == chunks;
  }
}
