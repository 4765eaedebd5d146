/** The commands the client sends (coordinator.py, the f-strings of the get_* and
    set_* methods), as one datatype of calls and the text each puts on the wire. */
module Commands {
  import opened Common
  import opened Text
  import opened Response

  /** One call of the client's collaborator interface. */
  datatype Request =
    | TypeQuery                                    // get_type
    | PowerQuery                                   // get_power
    | PowerSet(on: bool)                           // set_power
    | SourceQuery(output: int)                     // get_output_source
    | SourcesQuery                                 // get_output_sources
    | InLinkQuery(input: int)                      // get_in_link
    | InLinksQuery                                 // get_in_links
    | OutLinkQuery(output: int)                    // get_out_link
    | OutLinksQuery                                // get_out_links
    | Route(input: int, output: int)               // set_output_source
    | CecIn(inputId: Option<int>, command: string) // set_cec_in
    | CecOut(outputId: int, command: string)       // set_cec_out

  /** f"{value}" of a value that is an int or None. */
  function FormatOptional(v: Option<int>): string {
    match v
    case Some(n) => IntToString(n)
    case None => "None"
  }

  /** The fields of each command's f-string, in order. The command is these
      fields separated by single spaces and terminated by '!'; a CEC command's
      text is one field, whatever spaces it holds. */
  function Fields(req: Request): (ws: seq<string>)
    ensures |ws| >= 2
  {
    match req
    case TypeQuery => ["r", "type"]
    case PowerQuery => ["r", "power"]
    case PowerSet(on) => ["s", "power", if on then "1" else "0"]
    case SourceQuery(output) => ["r", "av", "out", IntToString(output)]
    case SourcesQuery => ["r", "av", "out", "0"]
    case InLinkQuery(input) => ["r", "link", "in", IntToString(input)]
    case InLinksQuery => ["r", "link", "in", "0"]
    case OutLinkQuery(output) => ["r", "link", "out", IntToString(output)]
    case OutLinksQuery => ["r", "link", "out", "0"]
    case Route(input, output) => ["s", "in", IntToString(input), "av", "out", IntToString(output)]
    case CecIn(input, command) => ["s", "cec", "in", FormatOptional(input), command]
    case CecOut(output, command) => ["s", "cec", "hdmi", "out", IntToString(output), command]
  }

  /** Fields joined by single spaces, followed by the terminator '!'. */
  function Sentence(ws: seq<string>): string
    requires ws != []
    decreases |ws|
  {
    if |ws| == 1 then ws[0] + "!" else ws[0] + " " + Sentence(ws[1..])
  }

  /** The command text of each call, without the line terminator. */
  function CommandOf(req: Request): string {
    Sentence(Fields(req))
  }

  lemma Sentence2(a: string, b: string)
    ensures Sentence([a, b]) == a + " " + b + "!"
  {
    assert [a, b][1..] == [b];
  }

  lemma {:induction false} SentenceCons(w: string, ws: seq<string>)
    requires ws != []
    ensures Sentence([w] + ws) == w + " " + Sentence(ws)
  {
    assert ([w] + ws)[1..] == ws;
  }

  lemma Sentence3(a: string, b: string, c: string)
    ensures Sentence([a, b, c]) == a + " " + b + " " + c + "!"
  {
    assert [a, b, c] == [a] + [b, c];
    SentenceCons(a, [b, c]);
    Sentence2(b, c);
  }

  lemma Sentence4(a: string, b: string, c: string, d: string)
    ensures Sentence([a, b, c, d]) == a + " " + b + " " + c + " " + d + "!"
  {
    assert [a, b, c, d] == [a] + [b, c, d];
    SentenceCons(a, [b, c, d]);
    Sentence3(b, c, d);
  }

  lemma Sentence5(a: string, b: string, c: string, d: string, e: string)
    ensures Sentence([a, b, c, d, e]) == a + " " + b + " " + c + " " + d + " " + e + "!"
  {
    assert [a, b, c, d, e] == [a] + [b, c, d, e];
    SentenceCons(a, [b, c, d, e]);
    Sentence4(b, c, d, e);
  }

  lemma Sentence6(a: string, b: string, c: string, d: string, e: string, f: string)
    ensures Sentence([a, b, c, d, e, f]) == a + " " + b + " " + c + " " + d + " " + e + " " + f + "!"
  {
    assert [a, b, c, d, e, f] == [a] + [b, c, d, e, f];
    SentenceCons(a, [b, c, d, e, f]);
    Sentence5(b, c, d, e, f);
  }

  lemma QueryTexts()
    ensures CommandOf(TypeQuery) == "r type!"
    ensures CommandOf(PowerQuery) == "r power!"
  {
    Sentence2("r", "type");
    Sentence2("r", "power");
  }

  /** The queries for all ports at once use port 0. */
  lemma AllPortsQueryTexts()
    ensures CommandOf(SourcesQuery) == "r av out 0!"
    ensures CommandOf(InLinksQuery) == "r link in 0!"
    ensures CommandOf(OutLinksQuery) == "r link out 0!"
  {
    Sentence4("r", "av", "out", "0");
    Sentence4("r", "link", "in", "0");
    Sentence4("r", "link", "out", "0");
  }

  lemma IdQueryTexts(id: int)
    ensures CommandOf(SourceQuery(id)) == "r av out " + IntToString(id) + "!"
    ensures CommandOf(InLinkQuery(id)) == "r link in " + IntToString(id) + "!"
    ensures CommandOf(OutLinkQuery(id)) == "r link out " + IntToString(id) + "!"
  {
    Sentence4("r", "av", "out", IntToString(id));
    assert "r" + " " + "av" + " " + "out" + " " == "r av out ";
    Sentence4("r", "link", "in", IntToString(id));
    assert "r" + " " + "link" + " " + "in" + " " == "r link in ";
    Sentence4("r", "link", "out", IntToString(id));
    assert "r" + " " + "link" + " " + "out" + " " == "r link out ";
  }

  lemma PowerSetText(on: bool)
    ensures CommandOf(PowerSet(on)) == if on then "s power 1!" else "s power 0!"
  {
    Sentence3("s", "power", if on then "1" else "0");
  }

  lemma RouteText(input: int, output: int)
    ensures CommandOf(Route(input, output)) == "s in " + IntToString(input) + " av out " + IntToString(output) + "!"
  {
    var i, o := IntToString(input), IntToString(output);
    Sentence6("s", "in", i, "av", "out", o);
    assert "s" + " " + "in" + " " == "s in ";
    assert " " + "av" + " " + "out" + " " == " av out ";
    assert "s in " + i + " " + "av" + " " + "out" + " " == "s in " + i + (" " + "av" + " " + "out" + " ");
  }

  lemma CecInText(input: Option<int>, command: string)
    ensures CommandOf(CecIn(input, command)) == "s cec in " + FormatOptional(input) + " " + command + "!"
  {
    Sentence5("s", "cec", "in", FormatOptional(input), command);
    assert "s" + " " + "cec" + " " + "in" + " " == "s cec in ";
  }

  lemma CecOutText(output: int, command: string)
    ensures CommandOf(CecOut(output, command)) == "s cec hdmi out " + IntToString(output) + " " + command + "!"
  {
    Sentence6("s", "cec", "hdmi", "out", IntToString(output), command);
    assert "s" + " " + "cec" + " " + "hdmi" + " " + "out" + " " == "s cec hdmi out ";
  }

  /** Queries start with the verb "r", settings with "s". */
  predicate IsQuery(req: Request) {
    req.TypeQuery? || req.PowerQuery? || req.SourceQuery? || req.SourcesQuery?
    || req.InLinkQuery? || req.InLinksQuery? || req.OutLinkQuery? || req.OutLinksQuery?
  }

  predicate IsWord(w: string) {
    w != [] && forall i :: 0 <= i < |w| ==> !IsSpace(w[i])
  }

  /** Every field but a CEC command's text is a word: non-empty, without whitespace. */
  lemma FieldsAreWords(req: Request)
    ensures Fields(req)[0] == (if IsQuery(req) then "r" else "s")
    ensures forall k :: 0 <= k < |Fields(req)| - 1 ==> IsWord(Fields(req)[k])
    ensures !(req.CecIn? || req.CecOut?) ==> IsWord(Fields(req)[|Fields(req)| - 1])
  {
    match req
    case SourceQuery(output) => IntToStringWord(output);
    case InLinkQuery(input) => IntToStringWord(input);
    case OutLinkQuery(output) => IntToStringWord(output);
    case Route(input, output) => IntToStringWord(input); IntToStringWord(output);
    case CecIn(input, command) => if input.Some? { IntToStringWord(input.value); }
    case CecOut(output, command) => IntToStringWord(output);
    case _ =>
  }

  /** The fields of a sentence of words come back from str.split(), the last one
      carrying the terminator. */
  lemma {:induction false} SplitSentence(ws: seq<string>)
    requires ws != [] && forall k :: 0 <= k < |ws| ==> IsWord(ws[k])
    ensures Split(Sentence(ws)) == ws[..|ws| - 1] + [ws[|ws| - 1] + "!"]
    decreases |ws|
  {
    if |ws| == 1 {
      var w := ws[0] + "!";
      assert forall i :: 0 <= i < |w| ==> !IsSpace(w[i]) by {
        forall i | 0 <= i < |w| ensures !IsSpace(w[i]) {
          if i < |ws[0]| { assert w[i] == ws[0][i]; }
        }
      }
      SplitJoined(w, "");
    } else {
      SplitSentence(ws[1..]);
      SplitJoined(ws[0], Sentence(ws[1..]));
      assert ws[..|ws| - 1] == [ws[0]] + ws[1..][..|ws| - 2];
    }
  }

  /** The first token of a sentence is its first field. */
  lemma SentenceStartsWithWord(ws: seq<string>)
    requires |ws| >= 2 && IsWord(ws[0])
    ensures Split(Sentence(ws))[0] == ws[0]
    ensures StartsWith(Sentence(ws), ws[0])
    ensures Sentence(ws)[0] == ws[0][0]
  {
    SplitJoined(ws[0], Sentence(ws[1..]));
    assert Sentence(ws)[..|ws[0]|] == ws[0];
  }

  lemma {:induction false} SentenceEndsWithBang(ws: seq<string>)
    requires ws != []
    ensures |Sentence(ws)| > 0 && Sentence(ws)[|Sentence(ws)| - 1] == '!'
    decreases |ws|
  {
    if |ws| > 1 {
      SentenceEndsWithBang(ws[1..]);
    }
  }

  /** The echo token of every command is its verb: "r" for queries, "s" for settings. */
  lemma EchoOfCommand(req: Request)
    ensures EchoToken(CommandOf(req)) == Some(if IsQuery(req) then "r" else "s")
  {
    FieldsAreWords(req);
    SentenceStartsWithWord(Fields(req));
  }

  /** The echo token of every command is its verb, the command is unchanged by
      strip(), and the device's echo of the command is dropped as noise by the
      cleaning loop. */
  lemma EchoOfCommandIsNoise(req: Request)
    ensures EchoToken(CommandOf(req)) == Some(if IsQuery(req) then "r" else "s")
    ensures Strip(CommandOf(req)) == CommandOf(req)
    ensures IsNoise(Strip(CommandOf(req)), EchoToken(CommandOf(req)).value)
  {
    var ws := Fields(req);
    var cmd := CommandOf(req);
    EchoOfCommand(req);
    FieldsAreWords(req);
    SentenceStartsWithWord(ws);
    SentenceEndsWithBang(ws);
    assert !IsSpace(cmd[0]) && !IsSpace(cmd[|cmd| - 1]);
    assert TrimLeft(cmd, IsSpace) == cmd;
    assert TrimRight(cmd, IsSpace) == cmd;
  }

  lemma AppendAscii(a: string, b: string)
    ensures IsAscii(a + b) <==> IsAscii(a) && IsAscii(b)
  {
    if IsAscii(a + b) {
      assert a == (a + b)[..|a|];
      assert b == (a + b)[|a|..];
      SliceIsAscii(a + b, 0, |a|);
      SliceIsAscii(a + b, |a|, |a + b|);
    }
  }

  /** A sentence is ASCII exactly when all its fields are. */
  lemma {:induction false} SentenceAscii(ws: seq<string>)
    requires ws != []
    ensures IsAscii(Sentence(ws)) <==> forall k :: 0 <= k < |ws| ==> IsAscii(ws[k])
    decreases |ws|
  {
    if |ws| == 1 {
      AppendAscii(ws[0], "!");
    } else {
      SentenceAscii(ws[1..]);
      AppendAscii(ws[0] + " ", Sentence(ws[1..]));
      AppendAscii(ws[0], " ");
      assert forall k :: 1 <= k < |ws| ==> ws[k] == ws[1..][k - 1];
    }
  }

  /** A command can be encoded as ASCII exactly when its CEC text, if any, is ASCII. */
  lemma CommandAscii(req: Request)
    ensures IsAscii(CommandOf(req)) <==> !(req.CecIn? || req.CecOut?) || IsAscii(req.command)
  {
    var ws := Fields(req);
    SentenceAscii(ws);
    match req
    case SourceQuery(output) => IntToStringWord(output);
    case InLinkQuery(input) => IntToStringWord(input);
    case OutLinkQuery(output) => IntToStringWord(output);
    case Route(input, output) => IntToStringWord(input); IntToStringWord(output);
    case CecIn(input, command) =>
      if input.Some? { IntToStringWord(input.value); }
      assert ws[4] == command;
    case CecOut(output, command) =>
      IntToStringWord(output);
      assert ws[5] == command;
    case _ =>
  }

  /** The routing command carries its ids recoverably: its whitespace tokens are the
      fields of the format, and int() of the id tokens gives the ids back. */
  lemma RouteCommandParsesBack(input: int, output: int)
    ensures Split(CommandOf(Route(input, output))) ==
      ["s", "in", IntToString(input), "av", "out", IntToString(output) + "!"]
    ensures ParseInt(Split(CommandOf(Route(input, output)))[2]) == Some(input)
    ensures var last := Split(CommandOf(Route(input, output)))[5];
      ParseInt(last[..|last| - 1]) == Some(output)
  {
    var ws := Fields(Route(input, output));
    FieldsAreWords(Route(input, output));
    SplitSentence(ws);
    ParseIntRoundTrip(input);
    ParseIntRoundTrip(output);
    var o := IntToString(output);
    assert (o + "!")[..|o|] == o;
  }
}
