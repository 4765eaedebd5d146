/** OreiMatrixClient (coordinator.py): the Telnet client of the matrix. It keeps one
    connection, reconnects on demand, sends one command at a time and drops the
    connection whenever a command fails. The socket is replaced by a Network value
    that says what the peer does during one call. */
module Client {
  import opened Common
  import opened Text
  import opened Response
  import opened Commands
  import opened Parsers

  /** One TCP connection, told apart from the others by the order it was opened in. */
  datatype Stream = Stream(session: nat)

  /** What the network does during one command: whether the current writer reports
      is_closing(), whether asyncio.open_connection succeeds if it is called, whether
      write/drain succeeds, and the outcomes of the reads of the reply phase. */
  datatype Network = Network(closing: bool, connectSucceeds: bool, writeSucceeds: bool, chunks: seq<ReadEvent>)

  /** The line terminator appended to every command. */
  const Terminator := "\r\n"

  /** cleaned[-1] if cleaned else "" */
  function LastLine(lines: seq<string>): (r: string)
    ensures lines == [] ==> r == ""
    ensures lines != [] ==> r == lines[|lines| - 1]
  {
    if lines == [] then "" else lines[|lines| - 1]
  }

  /** What a command does once the connection is up: encode, write, read until
      idle, clean. */
  function Exchange(cmd: string, net: Network): Result<seq<string>> {
    match EncodeAscii(cmd + Terminator)
    case None => Failure(EncodeError)
    case Some(_) =>
      if !net.writeSucceeds then Failure(WriteError)
      else match Burst(net.chunks)
        case None => Failure(ReadError)
        case Some(buffer) => Reply(cmd, buffer)
  }

  /** The status of a call whose value the caller discards. */
  function StatusOf<T>(r: Result<T>): (o: Outcome)
    ensures o.Pass? <==> r.Success?
    ensures o.Fail? ==> o.error == r.error
  {
    match r
    case Success(_) => Pass
    case Failure(e) => Fail(e)
  }

  /** What can go wrong once connected: a command never raises IndexError (it always
      has a verb), it fails to encode exactly when its CEC text is not ASCII, and
      otherwise the reply is [""] for silence or the lines that are not noise for the
      command's verb. */
  lemma ExchangeOfCommand(req: Request, net: Network)
    ensures Exchange(CommandOf(req), net).Failure? ==>
      Exchange(CommandOf(req), net).error in {EncodeError, WriteError, ReadError}
    ensures Exchange(CommandOf(req), net) == Failure(EncodeError) <==>
      (req.CecIn? || req.CecOut?) && !IsAscii(req.command)
    ensures IsAscii(CommandOf(req)) && !net.writeSucceeds ==> Exchange(CommandOf(req), net) == Failure(WriteError)
    ensures IsAscii(CommandOf(req)) && net.writeSucceeds && Burst(net.chunks).None? ==>
      Exchange(CommandOf(req), net) == Failure(ReadError)
    ensures IsAscii(CommandOf(req)) && net.writeSucceeds && Burst(net.chunks).Some? ==>
      var buffer := Burst(net.chunks).value;
      Exchange(CommandOf(req), net) ==
        Success(if buffer == [] then [""] else Kept(ReplyLines(buffer), if IsQuery(req) then "r" else "s"))
  {
    var cmd := CommandOf(req);
    CommandAscii(req);
    EchoOfCommand(req);
    if IsAscii(cmd) {
      ExchangeOfAscii(cmd, if IsQuery(req) then "r" else "s", net);
    } else {
      ExchangeOfNonAscii(cmd, net);
    }
  }

  /** A command that is not ASCII fails to encode, before anything is written. */
  lemma ExchangeOfNonAscii(cmd: string, net: Network)
    requires !IsAscii(cmd)
    ensures Exchange(cmd, net) == Failure(EncodeError)
  {
    AppendAscii(cmd, Terminator);
  }

  /** An ASCII command with an echo token fails only on the write or the read, and
      otherwise returns [""] for silence or the cleaned reply lines. */
  lemma ExchangeOfAscii(cmd: string, echo: string, net: Network)
    requires IsAscii(cmd) && EchoToken(cmd) == Some(echo)
    ensures Exchange(cmd, net).Failure? ==> Exchange(cmd, net).error in {WriteError, ReadError}
    ensures !net.writeSucceeds ==> Exchange(cmd, net) == Failure(WriteError)
    ensures net.writeSucceeds && Burst(net.chunks).None? ==> Exchange(cmd, net) == Failure(ReadError)
    ensures net.writeSucceeds && Burst(net.chunks).Some? ==>
      var buffer := Burst(net.chunks).value;
      Exchange(cmd, net) == Success(if buffer == [] then [""] else Kept(ReplyLines(buffer), echo))
  {
    AppendAscii(cmd, Terminator);
  }

  /** Every command goes on the wire as its ASCII text followed by "\r\n", and the
      bytes decode back to exactly that text. */
  lemma WireFormat(req: Request)
    requires IsAscii(CommandOf(req))
    ensures EncodeAscii(CommandOf(req) + Terminator).Some?
    ensures DecodeAscii(EncodeAscii(CommandOf(req) + Terminator).value) == CommandOf(req) + "\r\n"
  {
    AppendAscii(CommandOf(req), Terminator);
    EncodeDecodeRoundTrip(CommandOf(req) + Terminator);
  }

  class MatrixClient {
    const host: string
    const port: int
    var reader: Option<Stream>
    var writer: Option<Stream>
    /** Number of connections opened so far. */
    var sessions: nat
    /** The byte strings handed to writer.write, oldest first. */
    var sent: seq<seq<byte>>

    /** The reader and the writer come from one open_connection and are dropped together. */
    predicate Valid()
      reads this
    {
      reader == writer && (writer.Some? ==> writer.value.session <= sessions)
    }

    /** __init__: no connection yet. */
    constructor(host: string, port: int)
      ensures this.host == host && this.port == port
      ensures reader == None && writer == None
      ensures sessions == 0 && sent == []
      ensures Valid()
    {
      this.host := host;
      this.port := port;
      reader := None;
      writer := None;
      sessions := 0;
      sent := [];
    }

    /** The MatrixClient(host) of the integration: the Telnet port 23. */
    constructor Default(host: string)
      ensures this.host == host && this.port == 23
      ensures reader == None && writer == None
      ensures sessions == 0 && sent == []
      ensures Valid()
    {
      this.host := host;
      this.port := 23;
      reader := None;
      writer := None;
      sessions := 0;
      sent := [];
    }

    /** connect: open a new connection, or re-raise the failure with the old
        handles untouched. */
    method Connect(succeeds: bool) returns (o: Outcome)
      requires Valid()
      modifies this
      ensures Valid()
      ensures succeeds ==> o == Pass && sessions == old(sessions) + 1 && writer == Some(Stream(sessions))
      ensures !succeeds ==> o == Fail(ConnectionError) && sessions == old(sessions) && writer == old(writer)
      ensures reader == writer && sent == old(sent)
    {
      if !succeeds {
        return Fail(ConnectionError);
      }
      sessions := sessions + 1;
      reader := Some(Stream(sessions));
      writer := Some(Stream(sessions));
      return Pass;
    }

    /** disconnect: closing errors are swallowed, and both handles are dropped
        whenever there was a writer. */
    method Disconnect()
      requires Valid()
      modifies this
      ensures Valid()
      ensures reader == None && writer == None
      ensures sessions == old(sessions) && sent == old(sent)
    {
      if writer.Some? {
        // writer.close() and wait_closed(); any exception is ignored
        reader := None;
        writer := None;
      }
    }

    /** A new connection is needed when there is no writer or it is closing. */
    predicate NeedsConnect(net: Network)
      reads this
    {
      writer.None? || net.closing
    }

    /** _ensure_connected */
    method EnsureConnected(net: Network) returns (o: Outcome)
      requires Valid()
      modifies this
      ensures Valid()
      ensures old(NeedsConnect(net)) ==>
        if net.connectSucceeds then o == Pass && sessions == old(sessions) + 1 && writer == Some(Stream(sessions))
        else o == Fail(ConnectionError) && sessions == old(sessions) && writer == old(writer)
      ensures !old(NeedsConnect(net)) ==> o == Pass && sessions == old(sessions) && writer == old(writer)
      ensures reader == writer && sent == old(sent)
      ensures o.Pass? ==> writer.Some?
    {
      if writer.None? || net.closing {
        o := Connect(net.connectSucceeds);
      } else {
        o := Pass;
      }
    }

    /** What a command yields, from the client's state before the call. */
    function ReplyTo(cmd: string, net: Network): Result<seq<string>>
      reads this
    {
      if NeedsConnect(net) && !net.connectSucceeds then Failure(ConnectionError)
      else Exchange(cmd, net)
    }

    /** What a command does to the client: a failed connect leaves everything as it
        was; otherwise a new connection is opened if one was needed, the encoded
        command is recorded as written, and the connection is kept on success and
        dropped on any failure. */
    twostate predicate Performed(cmd: string, net: Network)
      reads this
    {
      if old(NeedsConnect(net)) && !net.connectSucceeds then
        && reader == old(reader) && writer == old(writer)
        && sessions == old(sessions) && sent == old(sent)
      else
        && sessions == old(sessions) + (if old(NeedsConnect(net)) then 1 else 0)
        && sent == old(sent) + (match EncodeAscii(cmd + Terminator) case Some(b) => [b] case None => [])
        && reader == writer
        && writer == (if old(ReplyTo(cmd, net)).Failure? then None
                      else if old(NeedsConnect(net)) then Some(Stream(sessions))
                      else old(writer))
    }

    /** _send_command_multiple */
    method Execute(cmd: string, net: Network) returns (r: Result<seq<string>>)
      requires Valid()
      modifies this
      ensures Valid()
      ensures r == old(ReplyTo(cmd, net))
      ensures Performed(cmd, net)
    {
      var o := EnsureConnected(net);
      if o.Fail? {
        return Failure(o.error);
      }
      if reader.None? || writer.None? {
        // the RuntimeError("Connection not established") branch
        assert false;
      }
      var wire := EncodeAscii(cmd + Terminator);
      if wire.None? {
        Disconnect();
        return Failure(EncodeError);
      }
      sent := sent + [wire.value];
      if !net.writeSucceeds {
        Disconnect();
        return Failure(WriteError);
      }
      var chunks := ReadUntilIdle(net.chunks);
      if chunks.None? {
        Disconnect();
        return Failure(ReadError);
      }
      if chunks.value == [] {
        return Success([""]);
      }
      var lines := ReplyLines(chunks.value);
      r := CleanLines(cmd, lines);
      if r.Failure? {
        Disconnect();
      }
    }

    /** _send_command: the last cleaned line, or "" when there is none. */
    method ExecuteSingle(cmd: string, net: Network) returns (r: Result<string>)
      requires Valid()
      modifies this
      ensures Valid()
      ensures r == old(ReplyTo(cmd, net)).Map(LastLine)
      ensures Performed(cmd, net)
    {
      var lines := Execute(cmd, net);
      if lines.Failure? {
        return Failure(lines.error);
      }
      return Success(LastLine(lines.value));
    }

    /** get_type */
    method GetType(net: Network) returns (r: Result<string>)
      requires Valid()
      modifies this
      ensures Valid()
      ensures r == old(ReplyTo(CommandOf(TypeQuery), net)).Map(LastLine)
      ensures Performed(CommandOf(TypeQuery), net)
    {
      r := ExecuteSingle(CommandOf(TypeQuery), net);
    }

    /** get_power */
    method GetPower(net: Network) returns (r: Result<bool>)
      requires Valid()
      modifies this
      ensures Valid()
      ensures r == old(ReplyTo(CommandOf(PowerQuery), net)).Map(lines => PowerOn(LastLine(lines)))
      ensures Performed(CommandOf(PowerQuery), net)
    {
      var res := ExecuteSingle(CommandOf(PowerQuery), net);
      if res.Failure? {
        return Failure(res.error);
      }
      return Success(PowerOn(res.value));
    }

    /** set_power */
    method SetPower(state: bool, net: Network) returns (o: Outcome)
      requires Valid()
      modifies this
      ensures Valid()
      ensures o == StatusOf(old(ReplyTo(CommandOf(PowerSet(state)), net)))
      ensures Performed(CommandOf(PowerSet(state)), net)
    {
      var res := ExecuteSingle(CommandOf(PowerSet(state)), net);
      o := StatusOf(res);
    }

    /** get_output_source: the input id the last line names, None when there is none
        or int() fails on it. */
    method GetOutputSource(outputId: int, net: Network) returns (r: Result<Option<int>>)
      requires Valid()
      modifies this
      ensures Valid()
      ensures r == old(ReplyTo(CommandOf(SourceQuery(outputId)), net)).Map(lines => OutputSource(LastLine(lines)))
      ensures Performed(CommandOf(SourceQuery(outputId)), net)
    {
      var res := ExecuteSingle(CommandOf(SourceQuery(outputId)), net);
      if res.Failure? {
        return Failure(res.error);
      }
      var parts := Split(Normalize(res.value));
      var input := ScanKey(parts, InKeys);
      if input.Failure? {
        return Success(None);
      }
      return Success(input.value);
    }

    /** get_output_sources */
    method GetOutputSources(net: Network) returns (r: Result<Option<RoutingMap>>)
      requires Valid()
      modifies this
      ensures Valid()
      ensures r == old(ReplyTo(CommandOf(SourcesQuery), net)).Map(lines => Collect(lines, RouteEntry))
      ensures Performed(CommandOf(SourcesQuery), net)
    {
      var results := Execute(CommandOf(SourcesQuery), net);
      if results.Failure? {
        return Failure(results.error);
      }
      var response := ParseOutputSources(results.value);
      return Success(response);
    }

    /** get_in_link */
    method GetInLink(inputId: int, net: Network) returns (r: Result<bool>)
      requires Valid()
      modifies this
      ensures Valid()
      ensures r == old(ReplyTo(CommandOf(InLinkQuery(inputId)), net)).Map(lines => Linked(LastLine(lines)))
      ensures Performed(CommandOf(InLinkQuery(inputId)), net)
    {
      var res := ExecuteSingle(CommandOf(InLinkQuery(inputId)), net);
      if res.Failure? {
        return Failure(res.error);
      }
      return Success(Linked(res.value));
    }

    /** get_in_links */
    method GetInLinks(net: Network) returns (r: Result<Option<LinkMap>>)
      requires Valid()
      modifies this
      ensures Valid()
      ensures r == old(ReplyTo(CommandOf(InLinksQuery), net)).Map(lines => Collect(lines, LinkParser(InKeys)))
      ensures Performed(CommandOf(InLinksQuery), net)
    {
      var results := Execute(CommandOf(InLinksQuery), net);
      if results.Failure? {
        return Failure(results.error);
      }
      var response := ParseLinks(results.value, InKeys);
      return Success(response);
    }

    /** get_out_link */
    method GetOutLink(outputId: int, net: Network) returns (r: Result<bool>)
      requires Valid()
      modifies this
      ensures Valid()
      ensures r == old(ReplyTo(CommandOf(OutLinkQuery(outputId)), net)).Map(lines => Linked(LastLine(lines)))
      ensures Performed(CommandOf(OutLinkQuery(outputId)), net)
    {
      var res := ExecuteSingle(CommandOf(OutLinkQuery(outputId)), net);
      if res.Failure? {
        return Failure(res.error);
      }
      return Success(Linked(res.value));
    }

    /** get_out_links */
    method GetOutLinks(net: Network) returns (r: Result<Option<LinkMap>>)
      requires Valid()
      modifies this
      ensures Valid()
      ensures r == old(ReplyTo(CommandOf(OutLinksQuery), net)).Map(lines => Collect(lines, LinkParser(OutKeys)))
      ensures Performed(CommandOf(OutLinksQuery), net)
    {
      var results := Execute(CommandOf(OutLinksQuery), net);
      if results.Failure? {
        return Failure(results.error);
      }
      var response := ParseLinks(results.value, OutKeys);
      return Success(response);
    }

    /** set_cec_in */
    method SetCecIn(inputId: Option<int>, command: string, net: Network) returns (o: Outcome)
      requires Valid()
      modifies this
      ensures Valid()
      ensures o == StatusOf(old(ReplyTo(CommandOf(CecIn(inputId, command)), net)))
      ensures Performed(CommandOf(CecIn(inputId, command)), net)
    {
      var res := ExecuteSingle(CommandOf(CecIn(inputId, command)), net);
      o := StatusOf(res);
    }

    /** set_cec_out */
    method SetCecOut(outputId: int, command: string, net: Network) returns (o: Outcome)
      requires Valid()
      modifies this
      ensures Valid()
      ensures o == StatusOf(old(ReplyTo(CommandOf(CecOut(outputId, command)), net)))
      ensures Performed(CommandOf(CecOut(outputId, command)), net)
    {
      var res := ExecuteSingle(CommandOf(CecOut(outputId, command)), net);
      o := StatusOf(res);
    }

    /** set_output_source */
    method SetOutputSource(inputId: int, outputId: int, net: Network) returns (o: Outcome)
      requires Valid()
      modifies this
      ensures Valid()
      ensures o == StatusOf(old(ReplyTo(CommandOf(Route(inputId, outputId)), net)))
      ensures Performed(CommandOf(Route(inputId, outputId)), net)
    {
      var res := ExecuteSingle(CommandOf(Route(inputId, outputId)), net);
      o := StatusOf(res);
    }
  }
}
