/** The command channel's reply handling (coordinator.py, _send_command_multiple):
    reading a burst of bytes until the device goes quiet, then turning the bytes
    into payload lines. */
module Response {
  import opened Common
  import opened Text

  /** What one `await asyncio.wait_for(reader.read(1024), timeout=0.3)` produces:
      bytes (an empty chunk when the peer closed), the idle timeout, or an exception. */
  datatype ReadEvent = Received(data: seq<byte>) | TimedOut | ReadFailed

  /** A read that ends the read phase: an empty chunk, the timeout, or a failure. */
  predicate EndsBurst(e: ReadEvent) {
    !e.Received? || e.data == []
  }

  /** The buffer one read phase accumulates from the reads `events`, or None when a
      read raises before the phase ends. A device that sends nothing further times out,
      so running out of events ends the phase like a timeout. */
  function Burst(events: seq<ReadEvent>): Option<seq<byte>>
    decreases |events|
  {
    if events == [] then Some([])
    else match events[0]
      case TimedOut => Some([])
      case ReadFailed => None
      case Received(data) =>
        if data == [] then Some([])
        else match Burst(events[1..])
          case None => None
          case Some(rest) => Some(data + rest)
  }

  function Prepend(chunks: seq<byte>, rest: Option<seq<byte>>): Option<seq<byte>> {
    match rest
    case None => None
    case Some(r) => Some(chunks + r)
  }

  /** The read-until-idle loop: extend the buffer with each chunk until an empty
      chunk or the timeout; a read exception leaves the loop without a buffer. */
  method ReadUntilIdle(events: seq<ReadEvent>) returns (chunks: Option<seq<byte>>)
    ensures chunks == Burst(events)
  {
    var buffer: seq<byte> := [];
    var i := 0;
    assert events[0..] == events;
    match Burst(events) {
      case None =>
      case Some(all) => assert [] + all == all;
    }
    while i < |events|
      invariant 0 <= i <= |events|
      invariant Burst(events) == Prepend(buffer, Burst(events[i..]))
    {
      var event := events[i];
      if event.TimedOut? {
        break;
      } else if event.ReadFailed? {
        return None;
      }
      if event.data == [] {
        break;
      }
      assert events[i..][1..] == events[i + 1..];
      match Burst(events[i + 1..]) {
        case None =>
        case Some(rest) => assert buffer + (event.data + rest) == (buffer + event.data) + rest;
      }
      buffer := buffer + event.data;
      i := i + 1;
    }
    assert buffer + [] == buffer;
    return Some(buffer);
  }

  /** Index of the read that ends the phase, or |events| when none does. */
  function StopIndex(events: seq<ReadEvent>): (k: nat)
    ensures k <= |events|
    ensures forall i :: 0 <= i < k ==> !EndsBurst(events[i])
    ensures k < |events| ==> EndsBurst(events[k])
    decreases |events|
  {
    if events == [] || EndsBurst(events[0]) then 0 else 1 + StopIndex(events[1..])
  }

  /** All received bytes of `events`, in order. */
  function Concat(events: seq<ReadEvent>): seq<byte>
    decreases |events|
  {
    if events == [] then []
    else (if events[0].Received? then events[0].data else []) + Concat(events[1..])
  }

  /** The buffer is exactly the concatenation of the chunks read before the first
      empty read or timeout; a read failure before that point yields no buffer. */
  lemma {:induction false} BurstIsConcatBeforeStop(events: seq<ReadEvent>)
    ensures var k := StopIndex(events);
      Burst(events) == if k < |events| && events[k].ReadFailed? then None else Some(Concat(events[..k]))
    decreases |events|
  {
    if events != [] && !EndsBurst(events[0]) {
      BurstIsConcatBeforeStop(events[1..]);
      var k := StopIndex(events);
      assert events[..k][1..] == events[1..][..k - 1];
    }
  }

  /** Nothing read after the read that ends the phase reaches the buffer. */
  lemma {:induction false} BurstIgnoresLaterReads(events: seq<ReadEvent>, later: seq<ReadEvent>)
    requires StopIndex(events) < |events|
    ensures Burst(events + later) == Burst(events)
    decreases |events|
  {
    if !EndsBurst(events[0]) {
      assert (events + later)[1..] == events[1..] + later;
      BurstIgnoresLaterReads(events[1..], later);
    }
  }

  /** bytes(b for b in chunks if b < 0x80) */
  function DropHighBytes(buffer: seq<byte>): seq<byte>
    decreases |buffer|
  {
    if buffer == [] then []
    else (if buffer[0] < 0x80 then [buffer[0]] else []) + DropHighBytes(buffer[1..])
  }

  /** bytes.decode("ascii", errors="ignore"): a byte below 0x80 becomes the
      character with that code, any other byte is dropped. */
  function DecodeAscii(bytes: seq<byte>): string
    decreases |bytes|
  {
    if bytes == [] then []
    else (if bytes[0] < 0x80 then [bytes[0] as char] else []) + DecodeAscii(bytes[1..])
  }

  lemma {:induction false} DecodeIsAscii(bytes: seq<byte>)
    ensures IsAscii(DecodeAscii(bytes))
    decreases |bytes|
  {
    if bytes != [] {
      DecodeIsAscii(bytes[1..]);
      var head: string := if bytes[0] < 0x80 then [bytes[0] as char] else [];
      assert DecodeAscii(bytes) == head + DecodeAscii(bytes[1..]);
    }
  }

  /** Dropping the high bytes first changes nothing the lenient decoder would keep. */
  lemma {:induction false} DropHighBytesRedundant(bytes: seq<byte>)
    ensures DecodeAscii(DropHighBytes(bytes)) == DecodeAscii(bytes)
    ensures forall i :: 0 <= i < |DropHighBytes(bytes)| ==> DropHighBytes(bytes)[i] < 0x80
    decreases |bytes|
  {
    if bytes != [] {
      DropHighBytesRedundant(bytes[1..]);
      if bytes[0] < 0x80 {
        assert DropHighBytes(bytes) == [bytes[0]] + DropHighBytes(bytes[1..]);
        assert DropHighBytes(bytes)[1..] == DropHighBytes(bytes[1..]);
      } else {
        assert DropHighBytes(bytes) == DropHighBytes(bytes[1..]);
      }
    }
  }

  /** str.encode("ascii"): the character codes, or None (UnicodeEncodeError) when a
      character is outside ASCII. */
  function EncodeAscii(s: string): (r: Option<seq<byte>>)
    ensures r.Some? <==> IsAscii(s)
    ensures r.Some? ==> |r.value| == |s|
    decreases |s|
  {
    if s == [] then Some([])
    else if s[0] as int >= 0x80 then None
    else match EncodeAscii(s[1..])
      case None => None
      case Some(rest) => Some([s[0] as int as byte] + rest)
  }

  /** Decoding what was encoded gives the text back, and no byte of it is dropped. */
  lemma {:induction false} EncodeDecodeRoundTrip(s: string)
    requires IsAscii(s)
    ensures DecodeAscii(EncodeAscii(s).value) == s
    ensures DropHighBytes(EncodeAscii(s).value) == EncodeAscii(s).value
    decreases |s|
  {
    if s != [] {
      SliceIsAscii(s, 1, |s|);
      EncodeDecodeRoundTrip(s[1..]);
      var b := EncodeAscii(s).value;
      assert b[1..] == EncodeAscii(s[1..]).value;
    }
  }

  /** [g(ln) for ln in lines if g(ln)]: every line mapped by g, in order, with the
      empty results left out. */
  function MapNonEmpty(lines: seq<string>, g: string -> string): seq<string>
    decreases |lines|
  {
    if lines == [] then []
    else (if g(lines[0]) != [] then [g(lines[0])] else []) + MapNonEmpty(lines[1..], g)
  }

  /** [ln.strip() for ln in lines if ln.strip()] */
  function NonBlankLines(lines: seq<string>): seq<string> {
    MapNonEmpty(lines, Strip)
  }

  /** The comprehension works line by line and keeps the order. */
  lemma {:induction false} MapNonEmptyDistributes(a: seq<string>, b: seq<string>, g: string -> string)
    ensures MapNonEmpty(a + b, g) == MapNonEmpty(a, g) + MapNonEmpty(b, g)
    decreases |a|
  {
    if a == [] {
      assert a + b == b;
    } else {
      assert (a + b)[0] == a[0] && (a + b)[1..] == a[1..] + b;
      MapNonEmptyDistributes(a[1..], b, g);
    }
  }

  /** Every kept line is non-empty and the image of an input line, and every input line
      with a non-empty image is kept. */
  lemma {:induction false} MapNonEmptyMembers(lines: seq<string>, g: string -> string)
    ensures forall l :: l in MapNonEmpty(lines, g) ==> l != [] && exists j :: 0 <= j < |lines| && g(lines[j]) == l
    ensures forall j :: 0 <= j < |lines| && g(lines[j]) != [] ==> g(lines[j]) in MapNonEmpty(lines, g)
    decreases |lines|
  {
    if lines != [] {
      MapNonEmptyMembers(lines[1..], g);
      forall l | l in MapNonEmpty(lines, g)
        ensures l != [] && exists j :: 0 <= j < |lines| && g(lines[j]) == l
      {
        if l !in MapNonEmpty(lines[1..], g) {
          assert g(lines[0]) == l;
        } else {
          var j :| 0 <= j < |lines[1..]| && g(lines[1..][j]) == l;
          assert g(lines[j + 1]) == l;
        }
      }
      forall j | 0 <= j < |lines| && g(lines[j]) != [] ensures g(lines[j]) in MapNonEmpty(lines, g) {
        if j > 0 {
          assert lines[j] == lines[1..][j - 1];
        }
      }
    }
  }

  /** A blank line contributes nothing, and two blocks of lines give the non-blank lines
      of the first block followed by those of the second. */
  lemma NonBlankLinesDistributes(a: seq<string>, b: seq<string>)
    ensures NonBlankLines(a + b) == NonBlankLines(a) + NonBlankLines(b)
  {
    MapNonEmptyDistributes(a, b, Strip);
  }

  lemma NonBlankLinesOne(line: string)
    ensures NonBlankLines([line]) == if Strip(line) == [] then [] else [Strip(line)]
  {
    assert [line][1..] == [];
    assert MapNonEmpty([line][1..], Strip) == [];
  }

  /** Every kept line is non-empty and already stripped, every kept line is the strip of
      an input line, and every input line that is not blank is kept. */
  lemma NonBlankLinesMeaning(lines: seq<string>)
    ensures forall l :: l in NonBlankLines(lines) ==> l != [] && Strip(l) == l
    ensures forall l :: l in NonBlankLines(lines) ==> exists j :: 0 <= j < |lines| && Strip(lines[j]) == l
    ensures forall j :: 0 <= j < |lines| && Strip(lines[j]) != [] ==> Strip(lines[j]) in NonBlankLines(lines)
  {
    MapNonEmptyMembers(lines, Strip);
    forall l | l in NonBlankLines(lines) ensures Strip(l) == l {
      var j :| 0 <= j < |lines| && Strip(lines[j]) == l;
      StripIdempotent(lines[j]);
    }
  }

  /** The decoded, stripped, split, non-blank lines of a non-empty buffer. */
  function ReplyLines(buffer: seq<byte>): seq<string> {
    NonBlankLines(SplitLines(Strip(DecodeAscii(DropHighBytes(buffer)))))
  }

  const BannerMarker := "********"
  const FirmwareMarker := "FW Version"
  const Prompt := ">"
  const WelcomeMarker := "Welcome"

  /** The line filter: an echo of the command (it starts with the command's first
      token), a banner line, a firmware-version line, a bare prompt, or the welcome text. */
  predicate IsNoise(line: string, echo: string) {
    || StartsWith(line, echo)
    || StartsWith(line, BannerMarker)
    || StartsWith(line, FirmwareMarker)
    || line == Prompt
    || Contains(line, WelcomeMarker)
  }

  predicate IsPromptChar(c: char) {
    c == '>'
  }

  /** line.strip('>') */
  function StripPrompt(line: string): string {
    TrimRight(TrimLeft(line, IsPromptChar), IsPromptChar)
  }

  /** The surviving lines, prompt characters stripped, in their original order. */
  function Kept(lines: seq<string>, echo: string): seq<string>
    decreases |lines|
  {
    if lines == [] then []
    else
      var last := lines[|lines| - 1];
      Kept(lines[..|lines| - 1], echo) + (if IsNoise(last, echo) then [] else [StripPrompt(last)])
  }

  /** cmd.split()[0], or None where Python raises IndexError. */
  function EchoToken(cmd: string): Option<string> {
    var words := Split(cmd);
    if words == [] then None else Some(words[0])
  }

  /** The result of the cleaning loop: cmd.split()[0] is evaluated for each line, so
      a command without a token raises IndexError as soon as there is a line. */
  function Cleaned(cmd: string, lines: seq<string>): Result<seq<string>> {
    if lines == [] then Success([])
    else match EchoToken(cmd)
      case None => Failure(IndexError)
      case Some(echo) => Success(Kept(lines, echo))
  }

  /** The cleaning loop of _send_command_multiple. */
  method CleanLines(cmd: string, lines: seq<string>) returns (r: Result<seq<string>>)
    ensures r == Cleaned(cmd, lines)
  {
    var cleaned: seq<string> := [];
    for i := 0 to |lines|
      invariant i > 0 ==> EchoToken(cmd).Some?
      invariant i > 0 ==> cleaned == Kept(lines[..i], EchoToken(cmd).value)
      invariant i == 0 ==> cleaned == []
    {
      var line := lines[i];
      var words := Split(cmd);
      if words == [] {
        return Failure(IndexError);
      }
      assert lines[..i + 1][..i] == lines[..i];
      if IsNoise(line, words[0]) {
        continue;
      }
      cleaned := cleaned + [StripPrompt(line)];
    }
    if lines != [] {
      assert lines[..|lines|] == lines;
    }
    return Success(cleaned);
  }

  /** What _send_command_multiple returns for the buffer of a completed read phase:
      [""] for an empty buffer, with no cleaning; the cleaned lines otherwise. */
  function Reply(cmd: string, buffer: seq<byte>): (r: Result<seq<string>>)
    ensures buffer == [] ==> r == Success([""])
    ensures r.Failure? <==> buffer != [] && ReplyLines(buffer) != [] && EchoToken(cmd).None?
    ensures r.Failure? ==> r.error == IndexError
  {
    if buffer == [] then Success([""]) else Cleaned(cmd, ReplyLines(buffer))
  }

  /** Every line of a successful reply to a non-empty buffer is a reply line of the
      buffer with its prompt characters stripped. */
  lemma ReplyFromLines(cmd: string, buffer: seq<byte>)
    requires buffer != []
    ensures Reply(cmd, buffer).Success? ==>
      forall k :: k in Reply(cmd, buffer).value ==> exists line :: line in ReplyLines(buffer) && k == StripPrompt(line)
  {
    var lines := ReplyLines(buffer);
    if lines != [] && EchoToken(cmd).Some? {
      KeptFromLines(lines, EchoToken(cmd).value);
    }
  }

  /** The reply lines of a buffer are non-empty, stripped, ASCII and free of line
      boundaries; each is the strip of a line of the decoded text, and dropping the
      high bytes first makes no difference to them. */
  lemma ReplyLinesMeaning(buffer: seq<byte>)
    ensures ReplyLines(buffer) == NonBlankLines(SplitLines(Strip(DecodeAscii(buffer))))
    ensures forall l :: l in ReplyLines(buffer) ==>
      l != [] && Strip(l) == l && IsAscii(l) && forall i :: 0 <= i < |l| ==> !IsLineBreak(l[i])
  {
    DropHighBytesRedundant(buffer);
    ReplyLinesAscii(buffer);
    var split := SplitLines(Strip(DecodeAscii(buffer)));
    SplitLinesLines(Strip(DecodeAscii(buffer)));
    NonBlankLinesMeaning(split);
    NonBlankNoBreak(split);
  }

  /** Stripping removes characters only at the ends, so a line without line boundaries
      stays without them. */
  lemma StripNoBreak(s: string)
    requires forall i :: 0 <= i < |s| ==> !IsLineBreak(s[i])
    ensures forall i :: 0 <= i < |Strip(s)| ==> !IsLineBreak(Strip(s)[i])
  {
    var start := StripMeaning(s);
    forall i | 0 <= i < |Strip(s)| ensures !IsLineBreak(Strip(s)[i]) {
      assert Strip(s)[i] == s[start + i];
    }
  }

  lemma NonBlankNoBreak(lines: seq<string>)
    requires forall line :: line in lines ==> forall i :: 0 <= i < |line| ==> !IsLineBreak(line[i])
    ensures forall line :: line in NonBlankLines(lines) ==> forall i :: 0 <= i < |line| ==> !IsLineBreak(line[i])
  {
    MapNonEmptyMembers(lines, Strip);
    forall line | line in NonBlankLines(lines) ensures forall i :: 0 <= i < |line| ==> !IsLineBreak(line[i]) {
      var j :| 0 <= j < |lines| && Strip(lines[j]) == line;
      assert lines[j] in lines;
      StripNoBreak(lines[j]);
    }
  }

  /** Cleaning works line by line and keeps the order: the cleaned form of two
      blocks of lines is the cleaned first block followed by the cleaned second. */
  lemma {:induction false} KeptDistributes(a: seq<string>, b: seq<string>, echo: string)
    ensures Kept(a + b, echo) == Kept(a, echo) + Kept(b, echo)
    decreases |b|
  {
    if b == [] {
      assert a + b == a;
    } else {
      var b' := b[..|b| - 1];
      assert (a + b)[..|a + b| - 1] == a + b';
      assert (a + b)[|a + b| - 1] == b[|b| - 1];
      KeptDistributes(a, b', echo);
    }
  }

  /** A single line is dropped exactly when it is noise, and kept with its prompt
      characters stripped otherwise. */
  lemma KeptOneLine(line: string, echo: string)
    ensures Kept([line], echo) == if IsNoise(line, echo) then [] else [StripPrompt(line)]
  {
    assert [line][..0] == [];
  }

  /** A reply made only of echo, banner and prompt lines cleans to nothing. */
  lemma {:induction false} AllNoiseKeepsNothing(lines: seq<string>, echo: string)
    requires forall j :: 0 <= j < |lines| ==> IsNoise(lines[j], echo)
    ensures Kept(lines, echo) == []
    decreases |lines|
  {
    if lines != [] {
      AllNoiseKeepsNothing(lines[..|lines| - 1], echo);
    }
  }

  /** Every kept line is one of the given lines with its prompt characters stripped. */
  lemma {:induction false} KeptFromLines(lines: seq<string>, echo: string)
    ensures forall k :: k in Kept(lines, echo) ==> exists j :: 0 <= j < |lines| && !IsNoise(lines[j], echo) && k == StripPrompt(lines[j])
    decreases |lines|
  {
    if lines != [] {
      var init := lines[..|lines| - 1];
      KeptFromLines(init, echo);
      forall k | k in Kept(lines, echo)
        ensures exists j :: 0 <= j < |lines| && !IsNoise(lines[j], echo) && k == StripPrompt(lines[j])
      {
        if k in Kept(init, echo) {
          var j :| 0 <= j < |init| && !IsNoise(init[j], echo) && k == StripPrompt(init[j]);
          assert lines[j] == init[j];
        } else {
          assert k == StripPrompt(lines[|lines| - 1]);
        }
      }
    }
  }

  lemma {:induction false} NonBlankIsAscii(lines: seq<string>)
    requires forall line :: line in lines ==> IsAscii(line)
    ensures forall line :: line in NonBlankLines(lines) ==> IsAscii(line)
    decreases |lines|
  {
    if lines != [] {
      StripIsAscii(lines[0]);
      NonBlankIsAscii(lines[1..]);
    }
  }

  /** The reply lines of a buffer are pure ASCII. */
  lemma ReplyLinesAscii(buffer: seq<byte>)
    ensures forall line :: line in ReplyLines(buffer) ==> IsAscii(line)
  {
    var text := Strip(DecodeAscii(DropHighBytes(buffer)));
    DecodeIsAscii(DropHighBytes(buffer));
    StripIsAscii(DecodeAscii(DropHighBytes(buffer)));
    SplitLinesLines(text);
    NonBlankIsAscii(SplitLines(text));
  }

  /** Stripping prompt characters off ASCII lines leaves ASCII lines. */
  lemma KeptIsAscii(lines: seq<string>, echo: string)
    requires forall line :: line in lines ==> IsAscii(line)
    ensures forall k :: k in Kept(lines, echo) ==> IsAscii(k)
  {
    KeptFromLines(lines, echo);
    forall k | k in Kept(lines, echo) ensures IsAscii(k) {
      var j :| 0 <= j < |lines| && !IsNoise(lines[j], echo) && k == StripPrompt(lines[j]);
      assert lines[j] in lines;
      TrimIsAscii(lines[j], IsPromptChar);
      TrimIsAscii(TrimLeft(lines[j], IsPromptChar), IsPromptChar);
    }
  }

  /** Every line the command channel returns is pure ASCII: bytes of 0x80 and
      above never reach a reply line. */
  lemma ReplyIsAscii(cmd: string, buffer: seq<byte>)
    ensures Reply(cmd, buffer).Success? ==> forall line :: line in Reply(cmd, buffer).value ==> IsAscii(line)
  {
    if buffer != [] {
      var lines := ReplyLines(buffer);
      ReplyLinesAscii(buffer);
      if lines != [] && EchoToken(cmd).Some? {
        KeptIsAscii(lines, EchoToken(cmd).value);
      }
    }
  }
}
