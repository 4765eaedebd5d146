# Orei HDMI matrix integration: a Dafny model of its Telnet client and output entities

This project models the Home Assistant integration for Orei HDMI matrix switches, covering three parts.
- **The protocol client `OreiMatrixClient`.** It keeps one Telnet connection to the matrix and opens it lazily. It drops the connection on any failure after the connection is established; a failed connect leaves the handles as they were.
- **Each command it sends.** An ASCII text such as `s in 2 av out 1!` followed by `"\r\n"`.
- **Each reply it parses.** The bytes the device sends until it falls silent are cleaned of echo, banner and prompt lines. The typed accessors then scan the remaining lines for `in`/`out` tokens and `on`/`disconnect` substrings.

On top of the client sit two entity kinds per matrix output:
- a "next source" button, which cycles the input routed to the output;
- a media player, which selects a named source and sends CEC on/off to the input currently routed there.

The model is laid out as follows:

- `common.dfy`: shared values.
  - `Option` stands for Python's `None`-or-value, and `Result` carries the exception a call raises instead of its value.
  - `CoordinatorData` is the record the polling layer hands to the entities.
- `text.dfy`: the Python string built-ins the client relies on.
  - `str.lower`, `strip`, `split()`, `splitlines`, `replace` and `in`.
  - `int()` on a token and `str()` of an int.
  - Each works on code points with Python's ASCII rules for whitespace and line boundaries.
- `response.dfy`: the reply path of `_send_command_multiple`.
  - The read-until-idle loop is a method over a sequence of read events, proved to return `Burst(events)`.
  - It is followed by the high-byte filter, the lenient ASCII decoder, line splitting, and the cleaning loop, a method proved to return `Cleaned`.
- `parsers.dfy`: the typed parsers.
  - Token normalisation, and the token scan loops, proved against `ScanUpTo`.
  - The loops that build the all-ports maps, proved against `Collect`.
  - The boolean substring parsers.
- `commands.dfy`: every command the client can send.
  - Each is a `Request` value, and `CommandOf` gives its text.
  - The model proves the exact f-string texts, ASCII encodability, and what the echo filter does with the device's echo of the command.
- `client.dfy`: the command exchange and the client.
  - `Exchange` is the exchange once connected.
  - `class MatrixClient` has the mutable handles `reader`/`writer`. It also has a count of connections opened and the log `sent` of byte strings written.
  - Its methods `Connect`, `Disconnect`, `EnsureConnected`, `Execute` (`_send_command_multiple`), `ExecuteSingle` (`_send_command`) and every `get_*`/`set_*` accessor have contracts.
  - Each accessor's result is stated through `ReplyTo` and its new state through `Performed`.
- `button.dfy`: the next-input arithmetic and its cycle lemmas, and `class OutputButton` with its mutable `current`.
- `media_player.dfy`: availability, state, source-name and input-id mapping, the CEC request, and `class OutputMediaPlayer` with its mutable `source`.
- `scenarios.dfy`: the parsers on reply lines of the device's shapes.
  - A routing reply whose ids are glued to their labels parses to `{None: None}`.
  - The power and link lines parse as expected.

The network is a parameter of every call, a `Network` value with four parts:
- whether the writer reports `is_closing()`;
- whether `open_connection` succeeds;
- whether `write`/`drain` succeeds;
- the outcomes of the reads.

A read outcome is one of three: a chunk of bytes (empty when the peer closed), the 0.3 s timeout, or an exception.

## Model

| member | source | states |
|---|---|---|
| Text.Lower | custom_components/orei_matrix/coordinator.py:140 | `lower()` keeps the length and lowers each character (ASCII `A`–`Z` to `a`–`z`, others unchanged) |
| Text.ContainsIff | custom_components/orei_matrix/coordinator.py:128 | `sub in s` holds exactly when `sub` occurs at some position of `s` |
| Text.TrimLeft | custom_components/orei_matrix/coordinator.py:88 | the stripped text is a suffix of the line, every dropped character is whitespace, and the first kept one is not |
| Text.TrimRight | custom_components/orei_matrix/coordinator.py:88 | the stripped text is a prefix of the line, every dropped character is whitespace, and the last kept one is not |
| Text.StripMeaning | custom_components/orei_matrix/coordinator.py:85-88 | `strip()` (`Text.Strip`) keeps one contiguous slice of the text and drops only whitespace before and after it |
| Text.StripIdempotent | custom_components/orei_matrix/coordinator.py:85-88 | neither end of a stripped text is whitespace, so stripping it again changes nothing |
| Text.SplitWords | custom_components/orei_matrix/coordinator.py:141 | no token of `split()` is empty or holds whitespace |
| Text.SplitRebuild | custom_components/orei_matrix/coordinator.py:141 | `split()` loses only whitespace: there are gaps, one more than the tokens, each all whitespace and the inner ones non-empty, and weaving the gaps with the tokens gives back the string (also line 189, where `replace(":", " ")` can leave a double space) |
| Text.SplitJoined | custom_components/orei_matrix/coordinator.py:141 | `split()` of a word, a space and a rest is the word followed by the tokens of the rest |
| Text.SplitLinesLines | custom_components/orei_matrix/coordinator.py:88 | no line of `splitlines()` holds a line boundary, and lines of ASCII text are ASCII |
| Text.SplitLinesRebuild | custom_components/orei_matrix/coordinator.py:88 | the lines of `splitlines()`, interleaved with the boundaries it cut at, give back the text; there are as many boundaries as lines or one fewer, and the first line runs up to the first line break |
| Text.SplitLinesTrailing | custom_components/orei_matrix/coordinator.py:88 | there is no trailing empty line: the boundaries and lines are equally many exactly when the text is empty or ends with a line break |
| Text.SplitLinesBoundaries | custom_components/orei_matrix/coordinator.py:88 | every cut is one boundary, either `"\r\n"` or a single line-break character |
| Text.SplitLinesCrLf | custom_components/orei_matrix/coordinator.py:88 | `"\r\n"` is one boundary: a `"\r"` cut followed by an empty line is never followed by a cut starting with `"\n"` |
| Text.ParseIntRoundTrip | custom_components/orei_matrix/coordinator.py:147 | `int(str(n)) == n` for every integer, negative ones included |
| Text.ReplaceNoMatch | custom_components/orei_matrix/coordinator.py:160 | `replace` leaves a string with no occurrence of the pattern unchanged |
| Text.ReplaceAt | custom_components/orei_matrix/coordinator.py:160 | when no occurrence of the pattern starts inside `a`, `replace` on `a + pat + b` keeps `a`, writes the replacement and carries on over `b` (also line 140) |
| Text.ReplaceChars | custom_components/orei_matrix/coordinator.py:160 | every character `replace` returns comes from the string or from the replacement |
| Response.ReadUntilIdle | custom_components/orei_matrix/coordinator.py:67-77 | the read loop returns exactly `Burst(events)`: the bytes up to the first empty read or timeout, or no buffer when a read raises first |
| Response.StopIndex | custom_components/orei_matrix/coordinator.py:70-76 | the read that ends the phase is the first empty read, timeout or read failure |
| Response.BurstIsConcatBeforeStop | custom_components/orei_matrix/coordinator.py:67-77 | the buffer is the concatenation of the chunks read before the stopping read, and none when that read failed |
| Response.BurstIgnoresLaterReads | custom_components/orei_matrix/coordinator.py:69-77 | nothing read after the stopping read reaches the buffer |
| Response.EncodeAscii | custom_components/orei_matrix/coordinator.py:63 | `encode("ascii")` succeeds exactly on ASCII text and yields one byte per character |
| Response.EncodeDecodeRoundTrip | custom_components/orei_matrix/coordinator.py:63-85 | decoding the encoded text gives it back, and the high-byte filter drops none of its bytes |
| Response.DecodeIsAscii | custom_components/orei_matrix/coordinator.py:85 | the lenient decoder yields ASCII text only |
| Response.DropHighBytesRedundant | custom_components/orei_matrix/coordinator.py:84-85 | after the filter every byte is below 0x80, and the filter changes nothing the lenient decoder keeps |
| Response.NonBlankIsAscii | custom_components/orei_matrix/coordinator.py:88 | the stripped non-blank lines of ASCII lines are ASCII |
| Response.NonBlankLinesDistributes | custom_components/orei_matrix/coordinator.py:88 | the comprehension `[ln.strip() for ln in lines if ln.strip()]` (`Response.NonBlankLines`) works line by line and keeps the order of the lines |
| Response.NonBlankLinesOne | custom_components/orei_matrix/coordinator.py:88 | a blank line contributes nothing, and any other line contributes its stripped form |
| Response.NonBlankLinesMeaning | custom_components/orei_matrix/coordinator.py:88 | every kept line is non-empty and already stripped, and is the strip of an input line; every input line that is not blank is kept |
| Response.NonBlankNoBreak | custom_components/orei_matrix/coordinator.py:88 | stripping lines without line boundaries leaves them without line boundaries |
| Response.ReplyLinesMeaning | custom_components/orei_matrix/coordinator.py:84-88 | the lines `Response.ReplyLines` takes from a buffer are non-empty, stripped, ASCII and free of line boundaries; dropping the high bytes first makes no difference to them |
| Response.ReplyLinesAscii | custom_components/orei_matrix/coordinator.py:84-88 | the lines taken from any buffer are pure ASCII |
| Response.CleanLines | custom_components/orei_matrix/coordinator.py:91-104 | the cleaning loop returns `Cleaned`: IndexError for a command without a token when there is a line, else the non-noise lines with `>` stripped, in order |
| Response.KeptDistributes | custom_components/orei_matrix/coordinator.py:92-104 | cleaning works line by line: the cleaned form of two blocks is the cleaned first block followed by the cleaned second |
| Response.KeptOneLine | custom_components/orei_matrix/coordinator.py:94-102 | a line is dropped exactly when it starts with the echo token, `********` or `FW Version`, equals `>` or contains `Welcome`; a kept line has its outer `>` removed |
| Response.AllNoiseKeepsNothing | custom_components/orei_matrix/coordinator.py:94-101 | a reply made only of noise lines cleans to the empty list |
| Response.KeptFromLines | custom_components/orei_matrix/coordinator.py:92-104 | every cleaned line is some non-noise input line with `>` stripped |
| Response.KeptIsAscii | custom_components/orei_matrix/coordinator.py:92-102 | cleaning ASCII lines gives ASCII lines |
| Response.Reply | custom_components/orei_matrix/coordinator.py:79-104 | an empty buffer gives `[""]` with no cleaning; the call raises, always with IndexError, exactly when the buffer holds a non-blank line and the command has no token |
| Response.ReplyFromLines | custom_components/orei_matrix/coordinator.py:79-104 | every line of a successful reply to a non-empty buffer is one of its reply lines with `>` stripped |
| Response.ReplyIsAscii | custom_components/orei_matrix/coordinator.py:79-104 | every line `_send_command_multiple` returns is pure ASCII |
| Parsers.ScanMeaning | custom_components/orei_matrix/coordinator.py:144-150 | the scan raises ValueError exactly when some key token's successor is not an integer; otherwise it yields the integer after the last key token with a successor, or None when there is none |
| Parsers.ScanFailureIff | custom_components/orei_matrix/coordinator.py:144-150 | the scan over the first n tokens fails, always with ValueError, exactly when some key token among them has a successor that is not an integer |
| Parsers.ScanValue | custom_components/orei_matrix/coordinator.py:144-150 | when every key successor parses, the scan yields None if no key token has a successor, and otherwise the integer after the last key token that has one |
| Parsers.ScanFailureSticks | custom_components/orei_matrix/coordinator.py:144-150 | once a successor has failed to parse, later tokens cannot undo the failure |
| Parsers.ScanKey | custom_components/orei_matrix/coordinator.py:145-147 | the token loop computes `Scan` |
| Parsers.OutputSourceMeaning | custom_components/orei_matrix/coordinator.py:135-152 | `get_output_source` gives the integer after the last `in`/`input` token; None without such a token, and None when any such successor fails to parse |
| Parsers.ScanRoute | custom_components/orei_matrix/coordinator.py:165-171 | the single loop looking for both `out` and `in` tokens gives the pair of the two scans, failing if either fails |
| Parsers.ParseOutputSources | custom_components/orei_matrix/coordinator.py:154-175 | the line loop of `get_output_sources` returns `Collect(lines, RouteEntry)` |
| Parsers.ParseLinks | custom_components/orei_matrix/coordinator.py:182-225 | the line loops of `get_in_links` and `get_out_links` return `Collect` of the link parser for their key set |
| Parsers.CollectFailureSticks | custom_components/orei_matrix/coordinator.py:172-174 | a line that raises makes the result None, whatever follows |
| Parsers.CollectNoneIff | custom_components/orei_matrix/coordinator.py:154-225 | an all-ports parser yields None exactly when some line raises, and never a partial map |
| Parsers.CollectEntries | custom_components/orei_matrix/coordinator.py:159-175 | when no line raises, the keys are exactly the ids the lines parse to, and each key holds the value of the last line naming it |
| Parsers.PowerOnIff | custom_components/orei_matrix/coordinator.py:125-128 | `get_power` is true exactly when two adjacent characters of the last line read `on` in any case |
| Parsers.LinkedIff | custom_components/orei_matrix/coordinator.py:177-180 | `get_in_link`/`get_out_link` are true exactly when `disconnect` occurs nowhere in the lowercased last line |
| Parsers.ReplaceColon | custom_components/orei_matrix/coordinator.py:188 | `replace(":", " ")` keeps the length and changes exactly the colons |
| Parsers.ContainsAfterColonReplace | custom_components/orei_matrix/coordinator.py:188-196 | replacing colons neither creates nor destroys an occurrence of `disconnect` |
| Parsers.NormalizeLinkMeaning | custom_components/orei_matrix/coordinator.py:188 | the link normalisation `lower().replace(":", " ")` (`Parsers.NormalizeLink`, also at line 213) keeps the length, turns each colon into a space and lowers every other character |
| Parsers.NormalizeMeaning | custom_components/orei_matrix/coordinator.py:140 | the routing normalisation (`Parsers.Normalize`, also at line 160) leaves no colon and no upper-case ASCII letter, and on a line without `->` it equals the link normalisation; `Parsers.NormalizeArrow` covers lines with `->` |
| Parsers.NormalizeArrow | custom_components/orei_matrix/coordinator.py:140 | on a line whose lowered form is `a + "->" + b`, with no arrow in `a` followed by `-`, the routing normalisation is the link normalisation of `a`, then `" -> "`, then the routing normalisation of `b` (also line 160) |
| Parsers.LinkEntryAgreesWithLinked | custom_components/orei_matrix/coordinator.py:182-225 | the all-ports link parsers judge a line connected exactly as the single-port parsers do |
| Commands.QueryTexts | custom_components/orei_matrix/coordinator.py:121-209 | the fixed status queries are `r type!` and `r power!` |
| Commands.AllPortsQueryTexts | custom_components/orei_matrix/coordinator.py:121-209 | the all-ports queries are `r av out 0!`, `r link in 0!`, `r link out 0!` |
| Commands.IdQueryTexts | custom_components/orei_matrix/coordinator.py:135-205 | the per-port queries are `r av out {id}!`, `r link in {id}!`, `r link out {id}!` |
| Commands.PowerSetText | custom_components/orei_matrix/coordinator.py:130-133 | `set_power` sends `s power 1!` or `s power 0!` |
| Commands.RouteText | custom_components/orei_matrix/coordinator.py:235-237 | `set_output_source(i, o)` sends `s in {i} av out {o}!` |
| Commands.CecInText | custom_components/orei_matrix/coordinator.py:227-229 | `set_cec_in` sends `s cec in {id} {command}!`, with `None` formatted as `None` |
| Commands.CecOutText | custom_components/orei_matrix/coordinator.py:231-233 | `set_cec_out` sends `s cec hdmi out {id} {command}!` |
| Commands.SplitSentence | custom_components/orei_matrix/coordinator.py:95 | `split()` of a command gives back its fields, the last carrying `!` |
| Commands.EchoOfCommand | custom_components/orei_matrix/coordinator.py:93-95 | the echo token of every command is its verb: `r` for queries, `s` for settings |
| Commands.EchoOfCommandIsNoise | custom_components/orei_matrix/coordinator.py:91-101 | the echo token of every command is its verb `r` or `s`, and the device's echo of the command is dropped as noise |
| Commands.CommandAscii | custom_components/orei_matrix/coordinator.py:63 | a command can be encoded exactly when its CEC text, if it has one, is ASCII |
| Commands.RouteCommandParsesBack | custom_components/orei_matrix/coordinator.py:235-237 | the routing command's tokens are its format's fields, and `int()` of the id tokens gives the ids back |
| Client.LastLine | custom_components/orei_matrix/coordinator.py:111-115 | `_send_command` returns the last cleaned line, or `""` for none |
| Client.ExchangeOfCommand | custom_components/orei_matrix/coordinator.py:61-109 | once connected a command fails only on encoding (exactly when its CEC text is not ASCII), writing or reading; an empty reply yields `[""]` and a non-empty one the non-noise lines for the command's verb |
| Client.ExchangeOfAscii | custom_components/orei_matrix/coordinator.py:61-104 | an ASCII command with an echo token fails only on writing or reading, and otherwise returns `[""]` for silence or the cleaned reply lines |
| Client.ExchangeOfNonAscii | custom_components/orei_matrix/coordinator.py:63 | a command that is not ASCII fails to encode with nothing written |
| Client.WireFormat | custom_components/orei_matrix/coordinator.py:63 | every command goes on the wire as its ASCII text followed by `"\r\n"` |
| Client.MatrixClient.constructor | custom_components/orei_matrix/coordinator.py:10-15 | a new client keeps host and port and has no connection |
| Client.MatrixClient.Default | custom_components/orei_matrix/coordinator.py:10 | the default port is 23 |
| Client.MatrixClient.Connect | custom_components/orei_matrix/coordinator.py:21-30 | a successful connect installs a new reader/writer pair, and a failed one raises with the handles untouched |
| Client.MatrixClient.Disconnect | custom_components/orei_matrix/coordinator.py:32-42 | disconnect never raises and leaves both handles None |
| Client.MatrixClient.EnsureConnected | custom_components/orei_matrix/coordinator.py:44-47 | a connection is opened exactly when there is no writer or it is closing; on success a writer is present |
| Client.MatrixClient.Execute | custom_components/orei_matrix/coordinator.py:53-109 | it returns `ReplyTo` of the old state. A failed connect raises before any write and changes nothing. Otherwise the encoded command is logged as written, the connection is kept on success, and it is dropped on any failure before re-raising |
| Client.MatrixClient.ExecuteSingle | custom_components/orei_matrix/coordinator.py:111-115 | the last line of `Execute`'s reply, with the same effect on the client |
| Client.MatrixClient.GetType | custom_components/orei_matrix/coordinator.py:121-123 | the last reply line to `r type!` |
| Client.MatrixClient.GetPower | custom_components/orei_matrix/coordinator.py:125-128 | `PowerOn` of the last reply line to `r power!` |
| Client.MatrixClient.SetPower | custom_components/orei_matrix/coordinator.py:130-133 | sends the power command and reports only whether it raised |
| Client.MatrixClient.GetOutputSource | custom_components/orei_matrix/coordinator.py:135-152 | `OutputSource` of the last reply line to `r av out {id}!`, with a parse failure giving None |
| Client.MatrixClient.GetOutputSources | custom_components/orei_matrix/coordinator.py:154-175 | `Collect(lines, RouteEntry)` of the reply to `r av out 0!` |
| Client.MatrixClient.GetInLink | custom_components/orei_matrix/coordinator.py:177-180 | `Linked` of the last reply line to `r link in {id}!` |
| Client.MatrixClient.GetInLinks | custom_components/orei_matrix/coordinator.py:182-200 | the input link map of the reply to `r link in 0!` |
| Client.MatrixClient.GetOutLink | custom_components/orei_matrix/coordinator.py:202-205 | `Linked` of the last reply line to `r link out {id}!` |
| Client.MatrixClient.GetOutLinks | custom_components/orei_matrix/coordinator.py:207-225 | the output link map of the reply to `r link out 0!` |
| Client.MatrixClient.SetCecIn | custom_components/orei_matrix/coordinator.py:227-229 | sends the input CEC command and reports whether it raised |
| Client.MatrixClient.SetCecOut | custom_components/orei_matrix/coordinator.py:231-233 | sends the output CEC command and reports whether it raised |
| Client.MatrixClient.SetOutputSource | custom_components/orei_matrix/coordinator.py:235-237 | sends the routing command and reports whether it raised |
| Button.NextInput | custom_components/orei_matrix/button.py:66 | the next input lies in 1..n, and with no sources the modulo raises ZeroDivisionError |
| Button.NextInputWraps | custom_components/orei_matrix/button.py:66 | input k < n is followed by k + 1, and input n by 1 |
| Button.NextInputPeriodic | custom_components/orei_matrix/button.py:66 | ids that differ by a multiple of n have the same successor |
| Button.CycleAdvances | custom_components/orei_matrix/button.py:66 | within one lap each press advances the input by one, wrapping past the last |
| Button.CycleVisitsAll | custom_components/orei_matrix/button.py:60-68 | n presses come back to the starting input, and every input 1..n is reached on the way |
| Button.PressActionOf | custom_components/orei_matrix/button.py:62-67 | while the current input is unknown nothing is sent. Otherwise the next input is routed, and it is reported as `sources[input_id - 1]`; without sources the press raises |
| Button.OutputButton.constructor | custom_components/orei_matrix/button.py:27-37 | the current input starts unknown |
| Button.OutputButton.HandleCoordinatorUpdate | custom_components/orei_matrix/button.py:52-58 | without a routing map the current input is unchanged; otherwise it becomes `outputs[output_id]`, or the update raises KeyError |
| Button.OutputButton.Press | custom_components/orei_matrix/button.py:60-68 | sends nothing while the current input is unknown, else sends exactly the routing command for the next input to this output |
| MediaPlayer.EnumerateIds | custom_components/orei_matrix/media_player.py:17-19 | player k is zone k with output id k + 1 |
| MediaPlayer.StateOf | custom_components/orei_matrix/media_player.py:45-53 | the entity is available exactly when the matrix power is on (`MediaPlayer.Available`), and its state is on exactly when it is available |
| MediaPlayer.IndexOf | custom_components/orei_matrix/media_player.py:108 | `sources.index(source)` is the first position holding the source |
| MediaPlayer.SelectedInput | custom_components/orei_matrix/media_player.py:100-108 | an input is selected exactly when the matrix is on and the name is a source; it is the first position of that name plus one, in 1..len |
| MediaPlayer.SourceName | custom_components/orei_matrix/media_player.py:95-97 | an id names a source exactly when it lies in 1..len, and it names `sources[id - 1]` |
| MediaPlayer.SelectThenReport | custom_components/orei_matrix/media_player.py:95-108 | reading back a selected input names the selected source |
| MediaPlayer.ReportThenSelect | custom_components/orei_matrix/media_player.py:95-108 | with distinct names, selecting a reported name routes the reported input |
| MediaPlayer.CecRequest | custom_components/orei_matrix/media_player.py:55-72 | nothing is sent while off or without a routing map; KeyError when the map lacks the output; else CEC to the input routed to this output |
| MediaPlayer.OutputMediaPlayer.constructor | custom_components/orei_matrix/media_player.py:32-43 | the source starts unknown |
| MediaPlayer.OutputMediaPlayer.HandleCoordinatorUpdate | custom_components/orei_matrix/media_player.py:88-98 | the source changes only when the matrix is on, the map is non-empty and the routed id names a source, and then it becomes that name; a map lacking the output raises KeyError |
| MediaPlayer.OutputMediaPlayer.SelectSource | custom_components/orei_matrix/media_player.py:100-109 | sends nothing while off or for an unknown name, else the routing command for the name's input to this output |
| MediaPlayer.OutputMediaPlayer.Turn | custom_components/orei_matrix/media_player.py:55-73 | sends exactly the CEC request `CecRequest` computes, or nothing |
| MediaPlayer.OutputMediaPlayer.TurnOn | custom_components/orei_matrix/media_player.py:55-63 | the CEC command `on` to the routed input |
| MediaPlayer.OutputMediaPlayer.TurnOff | custom_components/orei_matrix/media_player.py:65-73 | the CEC command `off` to the routed input |
| Scenarios.NormalizeGlued | custom_components/orei_matrix/coordinator.py:160 | a line `p:q` of plain tokens normalises to `lower(p) lower(q)` |
| Scenarios.GluedRouteEntry | custom_components/orei_matrix/coordinator.py:160-171 | a line whose ids are glued to their labels, like `1>OUT01:IN02`, yields the entry None -> None |
| Scenarios.GluedRoutingReply | custom_components/orei_matrix/coordinator.py:154-175 | the reply lines `1>OUT01:IN02`, `1>OUT02:IN01` give `{None: None}` |
| Scenarios.PowerAndLinkLines | custom_components/orei_matrix/coordinator.py:125-205 | `Power: ON` reads on and `Power: OFF` off; `IN01 Link: Disconnect` reads unlinked and `IN01 Link: Connect` linked |

## Left out

- **Sockets and timing:** `asyncio.open_connection`, `read(1024)`, `drain` and the 0.3 s `wait_for` timeout. They become the `Network` parameter. Chunk boundaries are whatever the events say, and the 1024-byte read size is not modelled.
- **A silent device:** the model treats a device that stops sending as a timeout, so running out of read events ends the read phase. The model cannot represent a device that never pauses, one that keeps sending bytes less than 0.3 s apart forever. The `while True` loop at coordinator.py:68-76 has no overall deadline, so the source would hang on such a device. In the model the read events are a finite sequence, so every `ReadUntilIdle` and `Execute` call ends.
- **`asyncio.Lock` and concurrency:** `asyncio.Lock` (coordinator.py:15, 54) only serialises concurrent callers. The model is sequential.
- **Logging:** all logging is left out.
- **Home Assistant plumbing:**
  - the `async_setup_entry` functions, apart from their `enumerate(zones, start=1)`;
  - `CoordinatorEntity`;
  - `async_write_ha_state`;
  - `async_request_refresh` after a press or a source selection;
  - the `device_info` dictionaries;
  - the unique ids and names.
- **Other files:** switch.py, `__init__.py` and config_flow.py are not part of this model. The polling in `__init__.py` only defines what `CoordinatorData` holds: `power` and `outputs`. The `type` string is not used by the modelled entities.
- Text.Lower: follows Python's rules for ASCII only; Unicode case mapping is not modelled. This makes no difference on replies, since reply lines are ASCII (`Response.ReplyIsAscii`).
- Text.IsSpace and Text.IsLineBreak: cover Python's ASCII whitespace and line boundaries only; Unicode ones such as U+0085 and U+2028 are not modelled, and reply lines cannot hold them.
- Text.ParseInt: models `int()` on a token as an optional sign, then ASCII digits with single underscores between digits. Surrounding whitespace cannot occur, because tokens come from `split()`; non-ASCII Unicode digits are not modelled. The model also has no limit on the number of digits, whereas CPython 3.11 and later raise ValueError in `int()` for a decimal string of more than 4300 digits.
- Text.ParseIntRoundTrip: holds for every integer, while CPython 3.11 and later refuse `str()` and `int()` beyond 4300 decimal digits; port ids are far below that.
- Client.MatrixClient.Execute: its `sent` log records the encoded command as soon as encoding succeeds, even when `write` or `drain` then fails, so it does not tell a write that failed part-way from one that completed.
- The "Connection not established" RuntimeError branch (coordinator.py:58-59) cannot happen: after a successful `EnsureConnected` both handles are present, and `Client.MatrixClient.Execute` proves the branch unreachable.
- Closing errors in `disconnect`: `close()`/`wait_closed()` errors are swallowed in the source, so the model has no closing step to fail.
- Glued routing reply: a reader might take the reply lines `1>OUT01:IN02` and `1>OUT02:IN01` as the routes 1 -> 2 and 2 -> 1. `get_output_sources` yields `{None: None}` for them instead, because after normalisation `out01` is not the token `out` (coordinator.py:160-171). The model follows the code (`Scenarios.GluedRoutingReply`).
