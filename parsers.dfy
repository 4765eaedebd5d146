/** The typed parsers of the client (coordinator.py, get_* methods): loose token
    scanning of cleaned reply lines into integers, booleans and id -> value maps. */
module Parsers {
  import opened Common
  import opened Text

  const InKeys: set<string> := {"input", "in"}
  const OutKeys: set<string> := {"output", "out"}
  const DisconnectWord := "disconnect"

  /** res.lower().replace("->", " -> ").replace(":", " ") of the routing parsers. */
  function Normalize(line: string): string {
    Replace(Replace(Lower(line), "->", " -> "), ":", " ")
  }

  /** res.lower().replace(":", " ") of the all-ports link parsers. */
  function NormalizeLink(line: string): string {
    Replace(Lower(line), ":", " ")
  }

  /** Token i is one of `keys` and has a successor. */
  predicate KeyAt(parts: seq<string>, keys: set<string>, i: int) {
    0 <= i && i + 1 < |parts| && parts[i] in keys
  }

  /** The token scan over positions 0 .. n-1: each key token with a successor sets
      the value to int(successor); the first successor that is not an integer raises. */
  function ScanUpTo(parts: seq<string>, keys: set<string>, n: nat): Result<Option<int>>
    requires n <= |parts|
    decreases n
  {
    if n == 0 then Success(None)
    else match ScanUpTo(parts, keys, n - 1)
      case Failure(e) => Failure(e)
      case Success(found) =>
        if KeyAt(parts, keys, n - 1) then
          match ParseInt(parts[n])
          case None => Failure(ValueError)
          case Some(v) => Success(Some(v))
        else Success(found)
  }

  /** The token scan over a whole line. */
  function Scan(parts: seq<string>, keys: set<string>): Result<Option<int>> {
    ScanUpTo(parts, keys, |parts|)
  }

  /** Every key token before position n has an integer successor. */
  predicate AllKeysParse(parts: seq<string>, keys: set<string>, n: int)
    requires n <= |parts|
  {
    forall j :: 0 <= j < n && KeyAt(parts, keys, j) ==> ParseInt(parts[j + 1]).Some?
  }

  /** No key token in positions lo .. n-1. */
  predicate NoKeyBetween(parts: seq<string>, keys: set<string>, lo: int, n: int) {
    forall j :: lo <= j < n ==> !KeyAt(parts, keys, j)
  }

  /** What the scan computes: it raises exactly when some key token's successor is not
      an integer (even if a later one is); otherwise it yields the integer after the
      last key token with a successor, and None when there is none. */
  lemma ScanMeaning(parts: seq<string>, keys: set<string>, n: nat)
    requires n <= |parts|
    ensures ScanUpTo(parts, keys, n).Failure? <==> !AllKeysParse(parts, keys, n)
    ensures ScanUpTo(parts, keys, n).Failure? ==> ScanUpTo(parts, keys, n).error == ValueError
    ensures AllKeysParse(parts, keys, n) && NoKeyBetween(parts, keys, 0, n) ==>
      ScanUpTo(parts, keys, n) == Success(None)
    ensures forall j :: 0 <= j < n && KeyAt(parts, keys, j) && AllKeysParse(parts, keys, n) && NoKeyBetween(parts, keys, j + 1, n) ==>
      ScanUpTo(parts, keys, n) == Success(ParseInt(parts[j + 1]))
  {
    ScanFailureIff(parts, keys, n);
    ScanValue(parts, keys, n);
  }

  /** The scan raises, always with ValueError, exactly when some key token's
      successor is not an integer. */
  lemma {:induction false} ScanFailureIff(parts: seq<string>, keys: set<string>, n: nat)
    requires n <= |parts|
    ensures ScanUpTo(parts, keys, n).Failure? <==> !AllKeysParse(parts, keys, n)
    ensures ScanUpTo(parts, keys, n).Failure? ==> ScanUpTo(parts, keys, n).error == ValueError
    decreases n
  {
    if n > 0 {
      ScanFailureIff(parts, keys, n - 1);
      assert AllKeysParse(parts, keys, n) ==> AllKeysParse(parts, keys, n - 1);
      if !AllKeysParse(parts, keys, n) && AllKeysParse(parts, keys, n - 1) {
        assert KeyAt(parts, keys, n - 1) && ParseInt(parts[n]).None?;
      }
    }
  }

  /** When no successor fails, the scan yields the integer after the last key token,
      and None when there is no key token. */
  lemma {:induction false} ScanValue(parts: seq<string>, keys: set<string>, n: nat)
    requires n <= |parts|
    ensures AllKeysParse(parts, keys, n) && NoKeyBetween(parts, keys, 0, n) ==>
      ScanUpTo(parts, keys, n) == Success(None)
    ensures forall j :: 0 <= j < n && KeyAt(parts, keys, j) && AllKeysParse(parts, keys, n) && NoKeyBetween(parts, keys, j + 1, n) ==>
      ScanUpTo(parts, keys, n) == Success(ParseInt(parts[j + 1]))
    decreases n
  {
    if n > 0 {
      ScanValue(parts, keys, n - 1);
      ScanFailureIff(parts, keys, n - 1);
      assert AllKeysParse(parts, keys, n) ==> AllKeysParse(parts, keys, n - 1);
      forall j | 0 <= j < n && KeyAt(parts, keys, j) && AllKeysParse(parts, keys, n) && NoKeyBetween(parts, keys, j + 1, n)
        ensures ScanUpTo(parts, keys, n) == Success(ParseInt(parts[j + 1]))
      {
        if j < n - 1 {
          assert !KeyAt(parts, keys, n - 1);
        }
      }
    }
  }

  /** Once the scan has raised, scanning further tokens does not undo it. */
  lemma {:induction false} ScanFailureSticks(parts: seq<string>, keys: set<string>, n: nat, m: nat)
    requires n <= m <= |parts|
    requires ScanUpTo(parts, keys, n) == Failure(ValueError)
    ensures ScanUpTo(parts, keys, m) == Failure(ValueError)
    decreases m
  {
    if m > n {
      ScanFailureSticks(parts, keys, n, m - 1);
    }
  }

  /** The loop `for i, token in enumerate(parts): if token in keys and i + 1 < len(parts):
      value = int(parts[i + 1])`, with the ValueError it may raise. */
  method ScanKey(parts: seq<string>, keys: set<string>) returns (r: Result<Option<int>>)
    ensures r == Scan(parts, keys)
  {
    var found: Option<int> := None;
    for i := 0 to |parts|
      invariant ScanUpTo(parts, keys, i) == Success(found)
    {
      if parts[i] in keys && i + 1 < |parts| {
        var v := ParseInt(parts[i + 1]);
        if v.None? {
          ScanFailureSticks(parts, keys, i + 1, |parts|);
          return Failure(ValueError);
        }
        found := v;
      }
    }
    return Success(found);
  }

  /** get_output_source: the input id of the last reply line, None when the scan
      raises or finds no input token. */
  function OutputSource(line: string): Option<int> {
    match Scan(Split(Normalize(line)), InKeys)
    case Success(input) => input
    case Failure(_) => None
  }

  /** get_output_source yields the integer after the last "in"/"input" token that has a
      successor; None when there is no such token, and None when any such successor
      is not an integer, even if a later one is. */
  lemma OutputSourceMeaning(line: string)
    ensures var parts := Split(Normalize(line));
      && (!AllKeysParse(parts, InKeys, |parts|) ==> OutputSource(line) == None)
      && (NoKeyBetween(parts, InKeys, 0, |parts|) ==> OutputSource(line) == None)
      && forall j ::
           (0 <= j < |parts| && KeyAt(parts, InKeys, j) && AllKeysParse(parts, InKeys, |parts|)
            && NoKeyBetween(parts, InKeys, j + 1, |parts|)) ==> OutputSource(line) == ParseInt(parts[j + 1])
  {
    var parts := Split(Normalize(line));
    ScanMeaning(parts, InKeys, |parts|);
    if NoKeyBetween(parts, InKeys, 0, |parts|) {
      assert AllKeysParse(parts, InKeys, |parts|);
    }
  }

  /** One line of the "r av out 0!" reply: the output id and the input id the line names. */
  function RouteOf(parts: seq<string>): Result<(Option<int>, Option<int>)> {
    match Scan(parts, OutKeys)
    case Failure(e) => Failure(e)
    case Success(output) =>
      match Scan(parts, InKeys)
      case Failure(e) => Failure(e)
      case Success(input) => Success((output, input))
  }

  function RouteEntry(line: string): Result<(Option<int>, Option<int>)> {
    RouteOf(Split(Normalize(line)))
  }

  /** The single token loop of get_output_sources, looking for both keys at once. */
  method ScanRoute(parts: seq<string>) returns (r: Result<(Option<int>, Option<int>)>)
    ensures r == RouteOf(parts)
  {
    var output: Option<int> := None;
    var input: Option<int> := None;
    for i := 0 to |parts|
      invariant ScanUpTo(parts, OutKeys, i) == Success(output)
      invariant ScanUpTo(parts, InKeys, i) == Success(input)
    {
      var token := parts[i];
      if token in OutKeys && i + 1 < |parts| {
        var v := ParseInt(parts[i + 1]);
        if v.None? {
          ScanFailureSticks(parts, OutKeys, i + 1, |parts|);
          return Failure(ValueError);
        }
        output := v;
      }
      if token in InKeys && i + 1 < |parts| {
        var v := ParseInt(parts[i + 1]);
        if v.None? {
          ScanFailureSticks(parts, InKeys, i + 1, |parts|);
          ScanMeaning(parts, OutKeys, |parts|);
          return Failure(ValueError);
        }
        input := v;
      }
    }
    return Success((output, input));
  }

  /** One line of an all-ports link reply: the port id the line names, and whether
      the line does not mention "disconnect". */
  function LinkEntry(keys: set<string>, line: string): Result<(Option<int>, bool)> {
    var res := NormalizeLink(line);
    match Scan(Split(res), keys)
    case Failure(e) => Failure(e)
    case Success(id) => Success((id, !Contains(res, DisconnectWord)))
  }

  /** LinkEntry for one port kind, as a line parser. */
  function LinkParser(keys: set<string>): string -> Result<(Option<int>, bool)> {
    line => LinkEntry(keys, line)
  }

  /** The map an all-ports parser builds from the lines, one entry per line and the
      later line winning; None as soon as one line raises. */
  function Collect<V>(lines: seq<string>, entry: string -> Result<(Option<int>, V)>): Option<map<Option<int>, V>>
    decreases |lines|
  {
    if lines == [] then Some(map[])
    else match Collect(lines[..|lines| - 1], entry)
      case None => None
      case Some(m) =>
        match entry(lines[|lines| - 1])
        case Failure(_) => None
        case Success(kv) => Some(m[kv.0 := kv.1])
  }

  /** get_output_sources: the loop over the reply lines. */
  method ParseOutputSources(lines: seq<string>) returns (r: Option<RoutingMap>)
    ensures r == Collect(lines, RouteEntry)
  {
    var response: RoutingMap := map[];
    for j := 0 to |lines|
      invariant Collect(lines[..j], RouteEntry) == Some(response)
    {
      assert lines[..j + 1][..j] == lines[..j];
      var parts := Split(Normalize(lines[j]));
      var entry := ScanRoute(parts);
      if entry.Failure? {
        CollectFailureSticks(lines, RouteEntry, j + 1);
        return None;
      }
      response := response[entry.value.0 := entry.value.1];
    }
    assert lines[..|lines|] == lines;
    return Some(response);
  }

  /** get_in_links (keys InKeys) and get_out_links (keys OutKeys): the loop over the reply lines. */
  method ParseLinks(lines: seq<string>, keys: set<string>) returns (r: Option<LinkMap>)
    ensures r == Collect(lines, LinkParser(keys))
  {
    var response: LinkMap := map[];
    for j := 0 to |lines|
      invariant Collect(lines[..j], LinkParser(keys)) == Some(response)
    {
      assert lines[..j + 1][..j] == lines[..j];
      var res := NormalizeLink(lines[j]);
      var id := ScanKey(Split(res), keys);
      if id.Failure? {
        CollectFailureSticks(lines, LinkParser(keys), j + 1);
        return None;
      }
      response := response[id.value := !Contains(res, DisconnectWord)];
    }
    assert lines[..|lines|] == lines;
    return Some(response);
  }

  /** A line that raises makes the whole map None, whatever follows it. */
  lemma {:induction false} CollectFailureSticks<V>(lines: seq<string>, entry: string -> Result<(Option<int>, V)>, n: nat)
    requires 0 < n <= |lines|
    requires Collect(lines[..n], entry).None?
    ensures Collect(lines, entry).None?
    decreases |lines| - n
  {
    if n < |lines| {
      assert lines[..n + 1][..n] == lines[..n];
      CollectFailureSticks(lines, entry, n + 1);
    } else {
      assert lines[..n] == lines;
    }
  }

  /** An all-ports parser returns None exactly when some line raises: never a partial map. */
  lemma {:induction false} CollectNoneIff<V>(lines: seq<string>, entry: string -> Result<(Option<int>, V)>)
    ensures Collect(lines, entry).None? <==> exists j :: 0 <= j < |lines| && entry(lines[j]).Failure?
    decreases |lines|
  {
    if lines != [] {
      var init := lines[..|lines| - 1];
      CollectNoneIff(init, entry);
      if exists j :: 0 <= j < |init| && entry(init[j]).Failure? {
        var j :| 0 <= j < |init| && entry(init[j]).Failure?;
        assert lines[j] == init[j];
      }
      if j :| 0 <= j < |lines| && entry(lines[j]).Failure? {
        if j < |init| {
          assert init[j] == lines[j];
        }
      }
    }
  }

  /** When every line parses, the map has one key per distinct parsed id, and each
      key holds the value of the last line that names it. */
  lemma {:induction false} CollectEntries<V>(lines: seq<string>, entry: string -> Result<(Option<int>, V)>)
    requires Collect(lines, entry).Some?
    ensures forall j :: 0 <= j < |lines| ==> entry(lines[j]).Success?
    ensures forall k :: k in Collect(lines, entry).value <==>
      exists j :: 0 <= j < |lines| && entry(lines[j]).value.0 == k
    ensures forall j :: (0 <= j < |lines| &&
      (forall j' :: j < j' < |lines| ==> entry(lines[j']).value.0 != entry(lines[j]).value.0)) ==>
      Collect(lines, entry).value[entry(lines[j]).value.0] == entry(lines[j]).value.1
    decreases |lines|
  {
    CollectNoneIff(lines, entry);
    if lines != [] {
      var init := lines[..|lines| - 1];
      CollectNoneIff(init, entry);
      CollectEntries(init, entry);
      var m := Collect(init, entry).value;
      var last := entry(lines[|lines| - 1]).value;
      assert Collect(lines, entry).value == m[last.0 := last.1];
      forall k ensures k in Collect(lines, entry).value <==> exists j :: 0 <= j < |lines| && entry(lines[j]).value.0 == k {
        if k in m {
          var j :| 0 <= j < |init| && entry(init[j]).value.0 == k;
          assert lines[j] == init[j];
        }
        if j :| 0 <= j < |lines| && entry(lines[j]).value.0 == k {
          if j < |init| {
            assert init[j] == lines[j];
          }
        }
      }
      forall j | 0 <= j < |lines| &&
        (forall j' :: j < j' < |lines| ==> entry(lines[j']).value.0 != entry(lines[j]).value.0)
        ensures Collect(lines, entry).value[entry(lines[j]).value.0] == entry(lines[j]).value.1
      {
        if j < |init| {
          assert init[j] == lines[j];
          forall j' | j < j' < |init| ensures entry(init[j']).value.0 != entry(init[j]).value.0 {
            assert init[j'] == lines[j'];
          }
        }
      }
    }
  }

  /** get_power: "on" in res.lower(). */
  function PowerOn(line: string): bool {
    Contains(Lower(line), "on")
  }

  /** get_in_link / get_out_link: not "disconnect" in res.lower(). */
  function Linked(line: string): bool {
    !Contains(Lower(line), DisconnectWord)
  }

  /** get_power is true exactly when some two adjacent characters of the line read
      "on" in either case. */
  lemma PowerOnIff(line: string)
    ensures PowerOn(line) <==>
      exists i :: 0 <= i && i + 1 < |line| && LowerChar(line[i]) == 'o' && LowerChar(line[i + 1]) == 'n'
  {
    var l := Lower(line);
    ContainsIff(l, "on");
    if i :| OccursAt(l, "on", i) {
      assert l[i..i + 2][0] == l[i] && l[i..i + 2][1] == l[i + 1];
    }
    if i :| 0 <= i && i + 1 < |line| && LowerChar(line[i]) == 'o' && LowerChar(line[i + 1]) == 'n' {
      assert l[i] == 'o' && l[i + 1] == 'n';
      assert l[i..i + 2] == [l[i], l[i + 1]];
      assert ['o', 'n'] == "on";
      assert l[i..i + 2] == "on";
      assert OccursAt(l, "on", i);
    }
  }

  /** get_in_link / get_out_link are true exactly when "disconnect" occurs nowhere in
      the lowercased line. */
  lemma LinkedIff(line: string)
    ensures Linked(line) <==> forall i :: !OccursAt(Lower(line), DisconnectWord, i)
  {
    ContainsIff(Lower(line), DisconnectWord);
    if !Linked(line) {
      var i :| OccursAt(Lower(line), DisconnectWord, i);
    }
  }

  /** Replacing ':' by ' ' changes one character at a time. */
  lemma {:induction false} ReplaceColon(s: string)
    ensures |Replace(s, ":", " ")| == |s|
    ensures forall i :: 0 <= i < |s| ==> Replace(s, ":", " ")[i] == if s[i] == ':' then ' ' else s[i]
    decreases |s|
  {
    if |s| >= 1 {
      ReplaceColon(s[1..]);
      var r := Replace(s, ":", " ");
      assert s[..1] == [s[0]];
    }
  }

  /** The link normalisation lower-cases the line and turns each colon into a space,
      one character for one. */
  lemma NormalizeLinkMeaning(line: string)
    ensures |NormalizeLink(line)| == |line|
    ensures forall i :: 0 <= i < |line| ==> NormalizeLink(line)[i] == if line[i] == ':' then ' ' else LowerChar(line[i])
  {
    ReplaceColon(Lower(line));
  }

  /** The routing normalisation leaves no colon and no upper-case letter, and on a line
      without an arrow it is the link normalisation. */
  lemma NormalizeMeaning(line: string)
    ensures forall i :: 0 <= i < |Normalize(line)| ==> Normalize(line)[i] != ':' && !('A' <= Normalize(line)[i] <= 'Z')
    ensures !Contains(Lower(line), "->") ==> Normalize(line) == NormalizeLink(line)
  {
    var arrowed := Replace(Lower(line), "->", " -> ");
    ReplaceChars(Lower(line), "->", " -> ");
    ReplaceColon(arrowed);
    forall i | 0 <= i < |Normalize(line)| ensures !('A' <= Normalize(line)[i] <= 'Z') {
      if arrowed[i] in Lower(line) {
        var k :| 0 <= k < |Lower(line)| && Lower(line)[k] == arrowed[i];
      }
    }
    if !Contains(Lower(line), "->") {
      ReplaceNoMatch(Lower(line), "->", " -> ");
    }
  }

  /** On a line with an arrow, the text before the first arrow gets the link
      normalisation, the arrow becomes " -> ", and the rest is normalised in turn. */
  lemma NormalizeArrow(line: string, a: string, b: string)
    requires Lower(line) == a + "->" + b && !Contains(a + "-", "->")
    ensures Normalize(line) == NormalizeLink(a) + " -> " + Normalize(b)
  {
    var r := Replace(b, "->", " -> ");
    ArrowStep(a, b);
    ColonAround(a, " -> ", r);
    LoweredParts(line, a, b);
  }

  /** The first arrow is spaced out and the replacement carries on after it. */
  lemma ArrowStep(a: string, b: string)
    requires !Contains(a + "-", "->")
    ensures Replace(a + "->" + b, "->", " -> ") == a + " -> " + Replace(b, "->", " -> ")
  {
    FirstArrow(a, b);
    ReplaceAt(a, b, "->", " -> ");
  }

  /** When `a` followed by "-" holds no arrow, the arrow after `a` is the first one. */
  lemma FirstArrow(a: string, b: string)
    requires !Contains(a + "-", "->")
    ensures forall i :: 0 <= i < |a| ==> !OccursAt(a + "->" + b, "->", i)
  {
    var s, x := a + "->" + b, a + "-";
    forall i | 0 <= i < |a| ensures !OccursAt(s, "->", i) {
      if OccursAt(s, "->", i) {
        assert x[i..i + 2] == s[i..i + 2];
        ContainsAt(x, "->", i);
        assert false;
      }
    }
  }

  /** Colons are replaced on both sides of a piece that holds none. */
  lemma ColonAround(a: string, m: string, r: string)
    requires forall i :: 0 <= i < |m| ==> m[i] != ':'
    ensures Replace(a + m + r, ":", " ") == Replace(a, ":", " ") + m + Replace(r, ":", " ")
  {
    assert a + m + r == a + (m + r);
    ColonConcat(a, m + r);
    ColonConcat(m, r);
    ReplaceColon(m);
    assert Replace(m, ":", " ") == m;
  }

  /** The pieces of a lower-cased line around an arrow are already lower case. */
  lemma LoweredParts(line: string, a: string, b: string)
    requires Lower(line) == a + "->" + b
    ensures Lower(a) == a && Lower(b) == b
  {
    var low := Lower(line);
    forall i | 0 <= i < |a| ensures LowerChar(a[i]) == a[i] {
      assert a[i] == low[i];
    }
    LowerOf(a, a);
    forall i | 0 <= i < |b| ensures LowerChar(b[i]) == b[i] {
      assert b[i] == low[|a| + 2 + i];
    }
    LowerOf(b, b);
  }

  /** Replacing colons works piece by piece. */
  lemma ColonConcat(x: string, y: string)
    ensures Replace(x + y, ":", " ") == Replace(x, ":", " ") + Replace(y, ":", " ")
  {
    ReplaceColon(x);
    ReplaceColon(y);
    ReplaceColon(x + y);
    var r := Replace(x, ":", " ") + Replace(y, ":", " ");
    forall i | 0 <= i < |x + y| ensures Replace(x + y, ":", " ")[i] == r[i] {
      if i >= |x| {
        assert (x + y)[i] == y[i - |x|];
      }
    }
  }

  /** Colons turned into spaces never create or destroy an occurrence of "disconnect". */
  lemma {:induction false} ContainsAfterColonReplace(s: string)
    ensures Contains(Replace(s, ":", " "), DisconnectWord) == Contains(s, DisconnectWord)
    decreases |s|
  {
    ReplaceColon(s);
    var r := Replace(s, ":", " ");
    var w := DisconnectWord;
    if |s| >= |w| {
      assert r[..|w|] == w <==> s[..|w|] == w by {
        assert forall i :: 0 <= i < |w| ==> w[i] != ':' && w[i] != ' ';
        if s[..|w|] == w {
          forall i | 0 <= i < |w| ensures r[..|w|][i] == w[i] {
            assert s[i] == w[i];
          }
        }
        if r[..|w|] == w {
          forall i | 0 <= i < |w| ensures s[..|w|][i] == w[i] {
            assert r[i] == w[i];
          }
        }
      }
    }
    if s != [] {
      ContainsAfterColonReplace(s[1..]);
      if |s| >= 1 {
        ReplaceColon(s[1..]);
        assert r[1..] == Replace(s[1..], ":", " ");
      }
    }
  }

  /** The all-ports link parsers judge a line exactly as the single-port ones do. */
  lemma LinkEntryAgreesWithLinked(keys: set<string>, line: string)
    ensures LinkEntry(keys, line).Success? ==> LinkEntry(keys, line).value.1 == Linked(line)
  {
    ContainsAfterColonReplace(Lower(line));
  }
}
