/**
 * The `Scales` session of src/classes/Scales.ts: commands sent to the scale,
 * the connection fields it keeps, and what each operation does to them and
 * to the outside world.
 *
 * The browser is a `Transport` value handed to each operation (the ports it
 * knows, what the user picks, whether opening succeeds, which streams the
 * port has and the chunks its read stream yields). What the session does to
 * the world — transport calls, bytes written, callbacks — is appended to the
 * ghost trace `events`.
 */
module Scales {
  import opened Wrappers
  import opened Text
  import opened SerialPort
  import opened ScalesData

  datatype SerialScaleCommand = RequestData | ReZero

  /** The string value of each `SerialScaleCommands` member. */
  function CommandChar(c: SerialScaleCommand): (letter: char)
    ensures letter == 'Q' || letter == 'Z'
    ensures letter as int < 0x80
  {
    match c
    case RequestData => 'Q'
    case ReZero => 'Z'
  }

  /** `new TextEncoder().encode(command + '\r\n')`: three bytes, the command letter then CR LF. */
  function EncodeCommand(c: SerialScaleCommand): (bytes: seq<byte>)
    ensures bytes == [CommandChar(c) as int as byte, 13, 10]
  {
    EncodeAscii([CommandChar(c)] + Delimiter)
  }

  /** A command, read back by the same framing the session applies to its input, is one message. */
  lemma CommandIsOneMessage(c: SerialScaleCommand)
    ensures CompleteMessages(DecodeAscii(EncodeCommand(c))) == [[CommandChar(c)]]
    ensures Pending(DecodeAscii(EncodeCommand(c))) == ""
  {
    var text := DecodeAscii(EncodeCommand(c));
    assert text == Terminated([[CommandChar(c)]]) + "";
    MessagesOfTerminated([[CommandChar(c)]], "");
  }

  /** `defaultSerialOptions`: 9600 baud, 7 data bits, even parity, 1 stop bit. */
  function DefaultSerialOptions(): (o: SerialOptions)
    ensures o.baudRate == 9600 && o.dataBits == 7 && o.parity == Even && o.stopBits == 1
  {
    SerialOptions(9600, 7, Even, 1)
  }

  /** The constructor's options; a callback is present or not. */
  datatype ScalesOptions = ScalesOptions(
    serialOptions: Option<SerialOptions>,
    rememberLast: bool,
    portConnected: bool,
    messageReceived: bool)

  /** What the browser answers while an operation runs. */
  datatype Transport = Transport(
    pairedPorts: seq<Port>,      // `navigator.serial.getPorts()`
    requested: Option<Port>,     // `navigator.serial.requestPort()`; None when it rejects
    opens: bool,                 // whether `port.open(options)` resolves
    writable: bool,              // whether the port has a write stream
    readable: bool,              // whether the port has a read stream
    chunks: seq<seq<byte>>)      // what the reader yields before it is done or fails

  /** What the session does to the world, in order. */
  datatype Event =
    | Open(port: Port, options: SerialOptions)
    | PortConnected(port: Port, sessionPort: Option<Port>)   // the callback, and the `serialPort` it would see
    | MessageReceived(data: Option<MessageData>, sourceMessage: string)
    | Write(writer: Writer, bytes: seq<byte>)
    | Cancel(reader: Reader)
    | ReleaseReader(reader: Reader)
    | ReleaseWriter(writer: Writer)
    | Close(port: Port)

  datatype ScalesError =
    | NoPortSelected             // "Cant connect serial port"
    | PortOpenFailed             // "Cant open port for listening"
    | TeardownFailed(step: Event)

  /** The `messageReceived` calls for the messages of a read loop, each with its decoding. */
  function Deliveries(options: ScalesOptions, messages: seq<string>): (ds: seq<Event>)
    ensures options.messageReceived ==> |ds| == |messages|
    ensures options.messageReceived ==>
      forall i :: 0 <= i < |ds| ==> ds[i] == MessageReceived(ProcessScalesData(messages[i]), messages[i])
    ensures !options.messageReceived ==> ds == []
  {
    if !options.messageReceived || messages == [] then []
    else [MessageReceived(ProcessScalesData(messages[0]), messages[0])] + Deliveries(options, messages[1..])
  }

  /** Where a teardown stops: the first failing step, or the end of the plan. */
  function StopIndex(plan: seq<Event>, failing: set<Event>): (k: nat)
    ensures k <= |plan|
  {
    if plan == [] || plan[0] in failing then 0 else 1 + StopIndex(plan[1..], failing)
  }

  /** The steps of a teardown up to and including the first that fails. */
  function Attempted(plan: seq<Event>, failing: set<Event>): seq<Event>
  {
    var k := StopIndex(plan, failing);
    if k < |plan| then plan[..k + 1] else plan
  }

  /** The first step of a teardown that fails, if any. */
  function FirstFailure(plan: seq<Event>, failing: set<Event>): Option<Event>
  {
    var k := StopIndex(plan, failing);
    if k < |plan| then Some(plan[k]) else None
  }

  /**
   * A teardown runs every step when none fails; otherwise it stops right
   * after the first failing step, and every step before that one succeeded.
   */
  lemma {:induction false} TeardownStopsAtFirstFailure(plan: seq<Event>, failing: set<Event>)
    ensures var k := StopIndex(plan, failing);
      && (forall i :: 0 <= i < k ==> plan[i] !in failing)
      && (k < |plan| ==> plan[k] in failing)
    ensures FirstFailure(plan, failing).None? <==> forall i :: 0 <= i < |plan| ==> plan[i] !in failing
    ensures FirstFailure(plan, failing).None? ==> Attempted(plan, failing) == plan
    ensures FirstFailure(plan, failing).Some? ==>
      var done := Attempted(plan, failing);
      && done != [] && done == plan[..|done|]
      && done[|done| - 1] == FirstFailure(plan, failing).value
      && FirstFailure(plan, failing).value in failing
      && forall i :: 0 <= i < |done| - 1 ==> done[i] !in failing
  {
    if plan != [] && plan[0] !in failing {
      TeardownStopsAtFirstFailure(plan[1..], failing);
      var k := StopIndex(plan, failing);
      assert forall i :: 1 <= i < k ==> plan[i] == plan[1..][i - 1];
    }
  }

  /** A session that holds no handle has nothing to tear down, and its teardown cannot fail. */
  lemma NothingToTearDown(failing: set<Event>)
    ensures Attempted(TeardownPlan(None, None, None), failing) == []
    ensures FirstFailure(TeardownPlan(None, None, None), failing) == None
  {
  }

  /** A teardown stops at step `k` exactly when that step fails and none before it does. */
  lemma {:induction false} StopsAt(plan: seq<Event>, failing: set<Event>, k: nat)
    requires k <= |plan|
    requires forall i :: 0 <= i < k ==> plan[i] !in failing
    requires k < |plan| ==> plan[k] in failing
    ensures StopIndex(plan, failing) == k
  {
    if k > 0 {
      StopsAt(plan[1..], failing, k - 1);
    }
  }

  /** What `disconnect` does with the reader: cancel the pending read, then release the lock. */
  function ReaderSteps(reader: Option<Reader>): seq<Event>
  {
    if reader.Some? then [Cancel(reader.value), ReleaseReader(reader.value)] else []
  }

  function WriterSteps(writer: Option<Writer>): seq<Event>
  {
    if writer.Some? then [ReleaseWriter(writer.value)] else []
  }

  function PortSteps(port: Option<Port>): seq<Event>
  {
    if port.Some? then [Close(port.value)] else []
  }

  /** The steps of `disconnect` for the handles held, in its order. */
  function TeardownPlan(reader: Option<Reader>, writer: Option<Writer>, port: Option<Port>): (plan: seq<Event>)
    ensures plan == [] <==> reader.None? && writer.None? && port.None?
  {
    ReaderSteps(reader) + (WriterSteps(writer) + PortSteps(port))
  }

  /**
   * The teardown order: reader cancel, reader release, writer release, port
   * close, each step present exactly when its handle is held.
   */
  lemma TeardownOrder(reader: Option<Reader>, writer: Option<Writer>, port: Option<Port>)
    ensures var plan := TeardownPlan(reader, writer, port);
      && |plan| == (if reader.Some? then 2 else 0) + (if writer.Some? then 1 else 0) + (if port.Some? then 1 else 0)
      && (reader.Some? ==> plan[0] == Cancel(reader.value) && plan[1] == ReleaseReader(reader.value))
      && (writer.Some? ==> plan[|plan| - (if port.Some? then 2 else 1)] == ReleaseWriter(writer.value))
      && (port.Some? ==> plan[|plan| - 1] == Close(port.value))
  {
  }

  class Scales {
    const options: ScalesOptions
    var serialPort: Option<Port>
    var portWriter: Option<Writer>
    var portReader: Option<Reader>
    ghost var events: seq<Event>

    /** The writer belongs to the current port; a reader exists only once a port was set. */
    ghost predicate Valid()
      reads this
    {
      && (portWriter.Some? ==> serialPort == Some(portWriter.value.port))
      && (portReader.Some? ==> serialPort.Some?)
    }

    /** `isPortOpened` */
    predicate IsPortOpened(): (isOpen: bool)
      reads this
      ensures isOpen <==> serialPort != None
    {
      serialPort.Some?
    }

    /** `serialOptions`: the options given, else the defaults. */
    function SerialOptionsInUse(): (o: SerialOptions)
      ensures options.serialOptions.Some? ==> o == options.serialOptions.value
      ensures options.serialOptions.None? ==> o == DefaultSerialOptions()
    {
      if options.serialOptions.Some? then options.serialOptions.value else DefaultSerialOptions()
    }

    /** The `portConnected` call for `port`, if that callback was given, made once the session's port is `port`. */
    function ConnectedCallback(port: Port): seq<Event>
    {
      if options.portConnected then [PortConnected(port, Some(port))] else []
    }

    /** What a read loop on `port` does: one delivery per complete message, then the lock release. */
    function ListenEvents(port: Port, transport: Transport): seq<Event>
    {
      if transport.readable
      then Deliveries(options, CompleteMessages(DecodeAscii(Concat(transport.chunks)))) + [ReleaseReader(Reader(port))]
      else []
    }

    /** A new session; with `rememberLast` it connects to the sole paired port, if there is exactly one. */
    constructor (options: ScalesOptions, transport: Transport)
      ensures Valid() && this.options == options
      ensures !(options.rememberLast && |transport.pairedPorts| == 1) ==>
        serialPort == None && portWriter == None && portReader == None && events == []
      ensures options.rememberLast && |transport.pairedPorts| == 1 ==>
        var port := transport.pairedPorts[0];
        && (transport.opens <==> serialPort == Some(port))
        && (!transport.opens ==>
              serialPort == None && portWriter == None && portReader == None
              && events == [Open(port, SerialOptionsInUse())])
        && (transport.opens ==> ConnectedState(port, SerialOptionsInUse(), transport, None, []))
    {
      this.options := options;
      serialPort, portWriter, portReader := None, None, None;
      events := [];
      new;
      if options.rememberLast {
        var _ := ConnectScaleFromPrevTime(transport);
      }
    }

    /** `connectScaleFromPrevTime`: connects only when `rememberLast` holds and exactly one port is paired. */
    method ConnectScaleFromPrevTime(transport: Transport) returns (result: Outcome<ScalesError>)
      requires Valid()
      modifies this
      ensures Valid()
      ensures !(options.rememberLast && |transport.pairedPorts| == 1) ==>
        result == Pass && serialPort == old(serialPort) && portWriter == old(portWriter)
        && portReader == old(portReader) && events == old(events)
      ensures options.rememberLast && |transport.pairedPorts| == 1 ==>
        ConnectOutcome(transport.pairedPorts[0], SerialOptionsInUse(), transport, result)
    {
      var serialOptions := SerialOptionsInUse();
      var pairedPorts := transport.pairedPorts;
      if !(options.rememberLast && |pairedPorts| == 1) {
        return Pass;
      }
      result := Connect(pairedPorts[0], serialOptions, transport);
    }

    /**
     * The session once `connect(port, serialOptions)` succeeded, starting from
     * the reader `priorReader` and the trace `priorEvents`: the port is the
     * session's port, its writer the port's writer if it has a write stream,
     * its reader the port's reader if it has a read stream (else the prior one
     * stays), and the open call, the callback and the read loop happened in
     * that order.
     */
    ghost predicate ConnectedState(port: Port, serialOptions: SerialOptions, transport: Transport,
                                   priorReader: Option<Reader>, priorEvents: seq<Event>)
      reads this
    {
      && serialPort == Some(port)
      && portWriter == (if transport.writable then Some(Writer(port)) else None)
      && portReader == (if transport.readable then Some(Reader(port)) else priorReader)
      && events == priorEvents + [Open(port, serialOptions)] + ConnectedCallback(port) + ListenEvents(port, transport)
    }

    /**
     * What `connect(port, serialOptions)` leaves behind: on an open failure
     * the error and nothing else changed; otherwise the connected session.
     */
    twostate predicate ConnectOutcome(port: Port, serialOptions: SerialOptions, transport: Transport, new result: Outcome<ScalesError>)
      reads this
    {
      if !transport.opens then
        && result == Fail(PortOpenFailed)
        && serialPort == old(serialPort) && portWriter == old(portWriter) && portReader == old(portReader)
        && events == old(events) + [Open(port, serialOptions)]
      else
        result == Pass && ConnectedState(port, serialOptions, transport, old(portReader), old(events))
    }

    /**
     * `sendCommand`: writes the command and CR LF through the writer, if there
     * is one; that writer belongs to the session's port.
     */
    method SendCommand(command: SerialScaleCommand)
      requires Valid()
      modifies this`events
      ensures portWriter.Some? ==> events == old(events) + [Write(portWriter.value, EncodeCommand(command))]
      ensures portWriter.Some? ==> serialPort.Some? && portWriter.value == Writer(serialPort.value)
      ensures portWriter.None? ==> events == old(events)
    {
      var writer := portWriter;
      if writer.Some? {
        var data := EncodeCommand(command);
        events := events + [Write(writer.value, data)];
      }
    }

    /** `connectScale`: connects to the port the user picks; fails when none is picked. */
    method ConnectScale(transport: Transport) returns (result: Outcome<ScalesError>)
      requires Valid()
      modifies this
      ensures Valid()
      ensures transport.requested.None? ==>
        result == Fail(NoPortSelected) && serialPort == old(serialPort) && portWriter == old(portWriter)
        && portReader == old(portReader) && events == old(events)
      ensures transport.requested.Some? ==>
        ConnectOutcome(transport.requested.value, SerialOptionsInUse(), transport, result)
    {
      var serialOptions := SerialOptionsInUse();
      var port := transport.requested;
      if port.None? {
        return Fail(NoPortSelected);
      }
      result := Connect(port.value, serialOptions, transport);
    }

    /** `connect`: opens the port, records it, takes its writer and runs the read loop to its end. */
    method Connect(port: Port, serialOptions: SerialOptions, transport: Transport) returns (result: Outcome<ScalesError>)
      requires Valid()
      modifies this
      ensures Valid()
      ensures ConnectOutcome(port, serialOptions, transport, result)
    {
      var isOpen := OpenPort(port, serialOptions, transport);
      if !isOpen {
        return Fail(PortOpenFailed);
      }
      serialPort := Some(port);
      if options.portConnected {
        events := events + [PortConnected(port, serialPort)];
      }
      assert events == old(events) + [Open(port, serialOptions)] + ConnectedCallback(port);
      portWriter := if transport.writable then Some(Writer(port)) else None;
      ReadFromPort(port, transport);
      result := Pass;
    }

    /** `openPort`: asks the transport to open `port`; reports whether it did. */
    method OpenPort(port: Port, serialOptions: SerialOptions, transport: Transport) returns (isOpen: bool)
      modifies this`events
      ensures isOpen == transport.opens
      ensures events == old(events) + [Open(port, serialOptions)]
    {
      events := events + [Open(port, serialOptions)];
      isOpen := transport.opens;
    }

    /**
     * `readFromPort`: takes the port's reader (when it has a read stream),
     * runs the read loop and hands every complete message, decoded, to
     * `messageReceived`.
     */
    method ReadFromPort(port: Port, transport: Transport)
      requires serialPort.Some?
      modifies this`portReader, this`events
      ensures portReader == (if transport.readable then Some(Reader(port)) else old(portReader))
      ensures events == old(events) + ListenEvents(port, transport)
    {
      var reader: Option<Reader> := if transport.readable then Some(Reader(port)) else None;
      if reader.Some? {
        portReader := reader;
      }
      var messages, _ := ListenPort(reader, transport.chunks);
      if reader.Some? {
        events := events + Deliveries(options, messages) + [ReleaseReader(reader.value)];
      }
    }

    /**
     * `disconnect`: cancels and releases the reader, releases the writer and
     * closes the port, each only if the session holds it. The first step that
     * fails ends the teardown with its error. The fields are left as they are.
     */
    method Disconnect(failing: set<Event>) returns (result: Outcome<ScalesError>)
      modifies this`events
      ensures IsPortOpened() == old(IsPortOpened())
      ensures events == old(events) + Attempted(old(TeardownPlan(portReader, portWriter, serialPort)), failing)
      ensures result == (match FirstFailure(old(TeardownPlan(portReader, portWriter, serialPort)), failing)
                         case None => Pass
                         case Some(step) => Fail(TeardownFailed(step)))
    {
      var reader, writer, port := portReader, portWriter, serialPort;
      ghost var rs, ws, ps := ReaderSteps(reader), WriterSteps(writer), PortSteps(port);
      ghost var plan := TeardownPlan(reader, writer, port);
      assert plan == rs + (ws + ps);
      if reader.Some? {
        events := events + [Cancel(reader.value)];
        if Cancel(reader.value) in failing {
          StopsAt(plan, failing, 0);
          return Fail(TeardownFailed(Cancel(reader.value)));
        }
        events := events + [ReleaseReader(reader.value)];
        if ReleaseReader(reader.value) in failing {
          StopsAt(plan, failing, 1);
          assert plan[..2] == rs;
          return Fail(TeardownFailed(ReleaseReader(reader.value)));
        }
      }
      assert events == old(events) + rs;
      if writer.Some? {
        events := events + [ReleaseWriter(writer.value)];
        if ReleaseWriter(writer.value) in failing {
          StopsAt(plan, failing, |rs|);
          assert plan[..|rs| + 1] == rs + ws;
          return Fail(TeardownFailed(ReleaseWriter(writer.value)));
        }
      }
      assert events == old(events) + rs + ws;
      if port.Some? {
        events := events + [Close(port.value)];
        if Close(port.value) in failing {
          StopsAt(plan, failing, |rs| + |ws|);
          assert plan[..|rs| + |ws| + 1] == rs + ws + ps;
          return Fail(TeardownFailed(Close(port.value)));
        }
      }
      StopsAt(plan, failing, |plan|);
      assert events == old(events) + plan;
      result := Pass;
    }
  }
}
