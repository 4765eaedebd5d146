/** Replies of the shapes the device sends, parsed end to end. Each helper takes
    its strings as parameters fixed by its precondition, so that the verifier
    evaluates the string functions on them step by step. */
module Scenarios {
  import opened Common
  import opened Text
  import opened Parsers

  /** str.replace leaves a string alone when the pattern's first character is absent. */
  lemma {:induction false} ReplaceAbsent(s: string, pat: string, rep: string)
    requires pat != [] && forall i :: 0 <= i < |s| ==> s[i] != pat[0]
    ensures Replace(s, pat, rep) == s
    decreases |s|
  {
    if |s| >= |pat| {
      assert s[..|pat|][0] == s[0];
      ReplaceAbsent(s[1..], pat, rep);
    }
  }

  /** A token of a routing line: no whitespace, no colon, no '-'. */
  predicate PlainToken(w: string) {
    w != [] && forall i :: 0 <= i < |w| ==> !IsSpace(w[i]) && w[i] != ':' && w[i] != '-'
  }

  lemma LowerPlain(w: string)
    requires PlainToken(w)
    ensures PlainToken(Lower(w))
  {
  }

  lemma LowerGlued(p: string, q: string)
    ensures Lower(p + ":" + q) == Lower(p) + ":" + Lower(q)
  {
    var line := p + ":" + q;
    var want := Lower(p) + ":" + Lower(q);
    forall i | 0 <= i < |line| ensures LowerChar(line[i]) == want[i] {
      if i < |p| {
        assert line[i] == p[i] && want[i] == Lower(p)[i];
      } else if i > |p| {
        assert line[i] == q[i - |p| - 1] && want[i] == Lower(q)[i - |p| - 1];
      }
    }
    LowerOf(line, want);
  }

  lemma NoDashGlued(a: string, b: string)
    requires PlainToken(a) && PlainToken(b)
    ensures Replace(a + ":" + b, "->", " -> ") == a + ":" + b
  {
    var g := a + ":" + b;
    forall i | 0 <= i < |g| ensures g[i] != '-' {
      if i < |a| {
        assert g[i] == a[i];
      } else if i > |a| {
        assert g[i] == b[i - |a| - 1];
      }
    }
    ReplaceAbsent(g, "->", " -> ");
  }

  lemma ColonGlued(a: string, b: string)
    requires PlainToken(a) && PlainToken(b)
    ensures Replace(a + ":" + b, ":", " ") == a + " " + b
  {
    var g := a + ":" + b;
    var spaced := a + " " + b;
    ReplaceColon(g);
    forall i | 0 <= i < |g| ensures Replace(g, ":", " ")[i] == spaced[i] {
      if i < |a| {
        assert g[i] == a[i] && spaced[i] == a[i];
      } else if i > |a| {
        assert g[i] == b[i - |a| - 1] && spaced[i] == b[i - |a| - 1];
      }
    }
  }

  lemma NormalizeGlued(p: string, q: string)
    requires PlainToken(p) && PlainToken(q)
    ensures Normalize(p + ":" + q) == Lower(p) + " " + Lower(q)
  {
    LowerGlued(p, q);
    LowerPlain(p);
    LowerPlain(q);
    NoDashGlued(Lower(p), Lower(q));
    ColonGlued(Lower(p), Lower(q));
  }

  /** A routing line whose ids are glued to their labels, as in "1>OUT01:IN02", has no
      standalone "out" or "in" token: it yields the entry None -> None. */
  lemma GluedRouteEntry(p: string, q: string)
    requires PlainToken(p) && PlainToken(q)
    requires Lower(p) !in OutKeys + InKeys && Lower(q) !in OutKeys + InKeys
    ensures RouteEntry(p + ":" + q) == Success((None, None))
  {
    NormalizeGlued(p, q);
    LowerPlain(p);
    LowerPlain(q);
    var a, b := Lower(p), Lower(q);
    SplitJoined(a, b);
    SplitJoined(b, "");
    var parts := [a, b];
    assert Split(Normalize(p + ":" + q)) == parts;
    assert NoKeyBetween(parts, OutKeys, 0, 2);
    assert NoKeyBetween(parts, InKeys, 0, 2);
    ScanMeaning(parts, OutKeys, 2);
    ScanMeaning(parts, InKeys, 2);
  }

  lemma GluedLine(line: string, output: string, input: string)
    requires (line == "1>OUT01:IN02" && output == "1>OUT01" && input == "IN02")
          || (line == "1>OUT02:IN01" && output == "1>OUT02" && input == "IN01")
    ensures RouteEntry(line) == Success((None, None))
  {
    assert line == output + ":" + input;
    assert |Lower(output)| == 7 && |Lower(input)| == 4;
    GluedRouteEntry(output, input);
  }

  lemma GluedPair(lines: seq<string>, first: string, second: string)
    requires first == "1>OUT01:IN02" && second == "1>OUT02:IN01" && lines == [first, second]
    ensures Collect(lines, RouteEntry) == Some(map[None := None])
  {
    GluedLine(first, "1>OUT01", "IN02");
    GluedLine(second, "1>OUT02", "IN01");
    assert lines[..1] == [first] && lines[..1][..0] == [];
    assert Collect(lines[..1], RouteEntry) == Some(map[None := None]);
    assert lines[..|lines| - 1] == lines[..1] && lines[|lines| - 1] == second;
    var single: RoutingMap := map[None := None];
    assert single[None := None] == single;
  }

  /** The cleaned reply ["1>OUT01:IN02", "1>OUT02:IN01"] to "r av out 0!" maps to
      {None: None}, not to {1: 2, 2: 1}: both lines write the same None key. */
  lemma GluedRoutingReply()
    ensures Collect(["1>OUT01:IN02", "1>OUT02:IN01"], RouteEntry) == Some(map[None := None])
  {
    GluedPair(["1>OUT01:IN02", "1>OUT02:IN01"], "1>OUT01:IN02", "1>OUT02:IN01");
  }

  lemma PowerLineOn(line: string, lowered: string)
    requires line == "Power: ON" && lowered == "power: on"
    ensures PowerOn(line)
  {
    LowerOf(line, lowered);
    assert OccursAt(lowered, "on", 7);
    ContainsAt(lowered, "on", 7);
  }

  lemma PowerLineOff(line: string, lowered: string)
    requires line == "Power: OFF" && lowered == "power: off"
    ensures !PowerOn(line)
  {
    LowerOf(line, lowered);
    forall i ensures !OccursAt(lowered, "on", i) {
      if 0 <= i && i + 2 <= |lowered| {
        assert lowered[i..i + 2][0] == lowered[i];
        assert lowered[i..i + 2][1] == lowered[i + 1];
      }
    }
    NotContains(lowered, "on");
  }

  lemma LinkLineDisconnected(line: string, lowered: string)
    requires line == "IN01 Link: Disconnect" && lowered == "in01 link: disconnect"
    ensures !Linked(line)
  {
    LowerOf(line, lowered);
    DisconnectWordAt(lowered);
    DisconnectedAt(line, lowered, 11);
  }

  /** "disconnect" follows "in01 link: " in the lowered disconnect line. */
  lemma DisconnectWordAt(lowered: string)
    requires lowered == "in01 link: disconnect"
    ensures OccursAt(lowered, DisconnectWord, 11)
  {
  }

  lemma LinkLineConnected(line: string, lowered: string)
    requires line == "IN01 Link: Connect" && lowered == "in01 link: connect"
    ensures Linked(line)
  {
    LowerOf(line, lowered);
    ConnectLineLacksD(lowered);
    ConnectedWithout(line, lowered);
  }

  /** The lowered connect line has no letter 'd'. */
  lemma ConnectLineLacksD(lowered: string)
    requires lowered == "in01 link: connect"
    ensures DisconnectWord[0] !in lowered
  {
  }

  /** A line whose lowered form holds "disconnect" reads as not linked. */
  lemma DisconnectedAt(line: string, lowered: string, i: int)
    requires Lower(line) == lowered && OccursAt(lowered, DisconnectWord, i)
    ensures !Linked(line)
  {
    ContainsAt(lowered, DisconnectWord, i);
  }

  /** A line whose lowered form lacks the letter 'd' reads as linked. */
  lemma ConnectedWithout(line: string, lowered: string)
    requires Lower(line) == lowered && DisconnectWord[0] !in lowered
    ensures Linked(line)
  {
    MissingFirst(lowered, DisconnectWord);
  }

  /** The boolean parsers on the device's power and link lines: "OFF" does not hold
      "on" as a substring, and "Connect" does not hold "disconnect". */
  lemma PowerAndLinkLines()
    ensures PowerOn("Power: ON") && !PowerOn("Power: OFF")
    ensures !Linked("IN01 Link: Disconnect") && Linked("IN01 Link: Connect")
  {
    PowerLineOn("Power: ON", "power: on");
    PowerLineOff("Power: OFF", "power: off");
    LinkLineDisconnected("IN01 Link: Disconnect", "in01 link: disconnect");
    LinkLineConnected("IN01 Link: Connect", "in01 link: connect");
  }
}
