/** OreiMatrixOutputMediaPlayer (media_player.py): one media player per output whose
    source list is the configured input names. */
module MediaPlayer {
  import opened Common
  import opened Commands
  import opened Client

  /** The zones become media players with output ids 1, 2, ... in zone order:
      enumerate(zones, start=1) as (name, output id) pairs. */
  function Enumerate(zones: seq<string>, start: int): seq<(string, int)>
    decreases |zones|
  {
    if zones == [] then [] else [(zones[0], start)] + Enumerate(zones[1..], start + 1)
  }

  /** Player k (from 0) is zone k with output id k + 1, so the ids are 1 .. len(zones)
      and no two players share one. */
  lemma {:induction false} EnumerateIds(zones: seq<string>, start: int)
    ensures |Enumerate(zones, start)| == |zones|
    ensures forall k :: 0 <= k < |zones| ==> Enumerate(zones, start)[k] == (zones[k], start + k)
    decreases |zones|
  {
    if zones != [] {
      EnumerateIds(zones[1..], start + 1);
      forall k | 0 <= k < |zones| ensures Enumerate(zones, start)[k] == (zones[k], start + k) {
        if k > 0 {
          assert Enumerate(zones, start)[k] == Enumerate(zones[1..], start + 1)[k - 1];
        }
      }
    }
  }

  /** bool(self.coordinator.data.get("power")) */
  predicate Available(data: CoordinatorData) {
    data.power
  }

  datatype PlayerState = On | Off

  /** STATE_ON if self.available else STATE_OFF */
  function StateOf(data: CoordinatorData): (s: PlayerState)
    ensures s == On <==> Available(data)
  {
    if Available(data) then On else Off
  }

  /** sources.index(source): the first position holding the source. */
  function IndexOf(sources: seq<string>, source: string): (i: nat)
    requires source in sources
    ensures i < |sources| && sources[i] == source
    ensures forall j :: 0 <= j < i ==> sources[j] != source
  {
    if sources[0] == source then 0 else 1 + IndexOf(sources[1..], source)
  }

  /** The input async_select_source routes to this output: none while the matrix is
      off or for a name that is not a source, else the source's first position plus one. */
  function SelectedInput(data: CoordinatorData, sources: seq<string>, source: string): (r: Option<int>)
    ensures r.Some? <==> Available(data) && source in sources
    ensures r.Some? ==> 1 <= r.value <= |sources| && sources[r.value - 1] == source
    ensures r.Some? ==> forall j :: 0 <= j < r.value - 1 ==> sources[j] != source
  {
    if !Available(data) || source !in sources then None else Some(IndexOf(sources, source) + 1)
  }

  /** The source name an update reports for src_id = outputs[output_id]: only a truthy
      id within 1 .. len(sources) names one. */
  function SourceName(srcId: Option<int>, sources: seq<string>): (r: Option<string>)
    ensures r.Some? <==> srcId.Some? && 1 <= srcId.value <= |sources|
    ensures r.Some? ==> r.value == sources[srcId.value - 1]
  {
    match srcId
    case Some(id) => if 1 <= id <= |sources| then Some(sources[id - 1]) else None
    case None => None
  }

  /** Selecting a source and then reading back the input routed to the output names
      the source that was selected. */
  lemma SelectThenReport(data: CoordinatorData, sources: seq<string>, source: string)
    requires SelectedInput(data, sources, source).Some?
    ensures SourceName(SelectedInput(data, sources, source), sources) == Some(source)
  {
  }

  /** An input id reported for this output is one the player could have selected:
      selecting the name it reports routes the same input when the names are distinct. */
  lemma ReportThenSelect(data: CoordinatorData, sources: seq<string>, srcId: int)
    requires Available(data) && 1 <= srcId <= |sources|
    requires forall i, j :: 0 <= i < j < |sources| ==> sources[i] != sources[j]
    ensures SelectedInput(data, sources, SourceName(Some(srcId), sources).value) == Some(srcId)
  {
  }

  /** The CEC request async_turn_on / async_turn_off sends: none while the matrix is off
      or without a routing map, KeyError when the map lacks this output, and otherwise
      the command to the input routed to this output (which may be None). */
  function CecRequest(data: CoordinatorData, outputId: int, command: string): (r: Result<Option<Request>>)
    ensures r.Success? && r.value.None? <==> !Available(data) || NoOutputs(data)
    ensures r.Failure? <==> Available(data) && !NoOutputs(data) && Some(outputId) !in data.outputs.value
    ensures r.Failure? ==> r.error == KeyError
    ensures r.Success? && r.value.Some? ==>
      r.value.value == CecIn(data.outputs.value[Some(outputId)], command)
  {
    if !Available(data) || NoOutputs(data) then Success(None)
    else if Some(outputId) !in data.outputs.value then Failure(KeyError)
    else Success(Some(CecIn(data.outputs.value[Some(outputId)], command)))
  }

  class OutputMediaPlayer {
    const outputId: int
    const sources: seq<string>
    /** _attr_source: the name of the source last seen on this output. */
    var source: Option<string>

    constructor(outputId: int, sources: seq<string>)
      ensures this.outputId == outputId && this.sources == sources && source == None
    {
      this.outputId := outputId;
      this.sources := sources;
      source := None;
    }

    /** _handle_coordinator_update: report the source named by outputs[output_id] when
        the matrix is on, has a routing map and the id names a source; a map without
        this output raises KeyError. */
    method HandleCoordinatorUpdate(data: CoordinatorData) returns (o: Outcome)
      modifies this
      ensures (!Available(data) || NoOutputs(data)) ==> o == Pass && source == old(source)
      ensures Available(data) && !NoOutputs(data) && Some(outputId) !in data.outputs.value ==>
        o == Fail(KeyError) && source == old(source)
      ensures Available(data) && !NoOutputs(data) && Some(outputId) in data.outputs.value ==>
        o == Pass &&
        var name := SourceName(data.outputs.value[Some(outputId)], sources);
        source == if name.Some? then name else old(source)
    {
      if !Available(data) {
        return Pass;
      }
      if NoOutputs(data) {
        return Pass;
      }
      var outputs := data.outputs.value;
      if Some(outputId) !in outputs {
        return Fail(KeyError);
      }
      var srcId := outputs[Some(outputId)];
      if srcId.Some? && srcId.value != 0 && 1 <= srcId.value <= |sources| {
        source := Some(sources[srcId.value - 1]);
      }
      return Pass;
    }

    /** async_select_source: route the source's input to this output through the client. */
    method SelectSource(data: CoordinatorData, name: string, client: MatrixClient, net: Network) returns (o: Outcome)
      requires client.Valid()
      modifies client
      ensures client.Valid()
      ensures SelectedInput(data, sources, name).None? ==> o == Pass && unchanged(client)
      ensures SelectedInput(data, sources, name).Some? ==>
        var req := Route(SelectedInput(data, sources, name).value, outputId);
        o == StatusOf(old(client.ReplyTo(CommandOf(req), net))) && client.Performed(CommandOf(req), net)
    {
      if !Available(data) {
        return Pass;
      }
      if name !in sources {
        return Pass;
      }
      var inputId := IndexOf(sources, name) + 1;
      o := client.SetOutputSource(inputId, outputId, net);
    }

    /** async_turn_on (command "on") and async_turn_off (command "off"). */
    method Turn(data: CoordinatorData, command: string, client: MatrixClient, net: Network) returns (o: Outcome)
      requires client.Valid()
      modifies client
      ensures client.Valid()
      ensures CecRequest(data, outputId, command).Failure? ==> o == Fail(KeyError) && unchanged(client)
      ensures CecRequest(data, outputId, command) == Success(None) ==> o == Pass && unchanged(client)
      ensures CecRequest(data, outputId, command).Success? && CecRequest(data, outputId, command).value.Some? ==>
        var req := CecRequest(data, outputId, command).value.value;
        o == StatusOf(old(client.ReplyTo(CommandOf(req), net))) && client.Performed(CommandOf(req), net)
    {
      if !Available(data) {
        return Pass;
      }
      if NoOutputs(data) {
        return Pass;
      }
      var outputs := data.outputs.value;
      if Some(outputId) !in outputs {
        return Fail(KeyError);
      }
      var srcId := outputs[Some(outputId)];
      o := client.SetCecIn(srcId, command, net);
    }

    method TurnOn(data: CoordinatorData, client: MatrixClient, net: Network) returns (o: Outcome)
      requires client.Valid()
      modifies client
      ensures client.Valid()
      ensures CecRequest(data, outputId, "on").Failure? ==> o == Fail(KeyError) && unchanged(client)
      ensures CecRequest(data, outputId, "on") == Success(None) ==> o == Pass && unchanged(client)
      ensures CecRequest(data, outputId, "on").Success? && CecRequest(data, outputId, "on").value.Some? ==>
        var req := CecRequest(data, outputId, "on").value.value;
        o == StatusOf(old(client.ReplyTo(CommandOf(req), net))) && client.Performed(CommandOf(req), net)
    {
      o := Turn(data, "on", client, net);
    }

    method TurnOff(data: CoordinatorData, client: MatrixClient, net: Network) returns (o: Outcome)
      requires client.Valid()
      modifies client
      ensures client.Valid()
      ensures CecRequest(data, outputId, "off").Failure? ==> o == Fail(KeyError) && unchanged(client)
      ensures CecRequest(data, outputId, "off") == Success(None) ==> o == Pass && unchanged(client)
      ensures CecRequest(data, outputId, "off").Success? && CecRequest(data, outputId, "off").value.Some? ==>
        var req := CecRequest(data, outputId, "off").value.value;
        o == StatusOf(old(client.ReplyTo(CommandOf(req), net))) && client.Performed(CommandOf(req), net)
    {
      o := Turn(data, "off", client, net);
    }
  }
}
