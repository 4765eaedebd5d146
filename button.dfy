/** OreiMatrixOutputButton (button.py): one button per output that routes the next
    input, cyclically, to that output. */
module Button {
  import opened Common
  import opened Commands
  import opened Client

  /** (current % len(sources)) + 1, with Python's floored modulo (which agrees with
      the Euclidean one for a positive divisor); no sources raises ZeroDivisionError. */
  function NextInput(current: int, count: nat): (r: Result<int>)
    ensures r.Failure? <==> count == 0
    ensures r.Failure? ==> r.error == ZeroDivisionError
    ensures r.Success? ==> 1 <= r.value <= count
  {
    if count == 0 then Failure(ZeroDivisionError) else Success(current % count + 1)
  }

  /** From input k the button moves to k + 1, and from the last input back to the first. */
  lemma NextInputWraps(k: int, count: nat)
    requires 1 <= k <= count
    ensures k < count ==> NextInput(k, count) == Success(k + 1)
    ensures k == count ==> NextInput(k, count) == Success(1)
  {
  }

  /** Input ids that differ by a multiple of the number of sources lead to the same next input. */
  lemma NextInputPeriodic(current: int, count: nat, laps: int)
    requires count > 0
    ensures NextInput(current + laps * count, count) == NextInput(current, count)
  {
    var q := current / count;
    var m := current % count;
    assert current + laps * count == (q + laps) * count + m;
    assert (current + laps * count) / count == q + laps && (current + laps * count) % count == m by {
      DivModUnique(current + laps * count, count, q + laps, m);
    }
  }

  lemma MulAtLeast(k: int, n: int)
    requires k >= 1 && n > 0
    ensures k * n >= n
  {
    assert k * n == (k - 1) * n + n;
    assert (k - 1) * n >= 0;
  }

  /** Euclidean quotient and remainder are unique. */
  lemma DivModUnique(a: int, n: int, q: int, m: int)
    requires n > 0 && 0 <= m < n && a == q * n + m
    ensures a / n == q && a % n == m
  {
    var q' := a / n;
    var m' := a % n;
    assert a == q' * n + m';
    assert (q - q') * n == m' - m;
    if q > q' {
      MulAtLeast(q - q', n);
    } else if q < q' {
      MulAtLeast(q' - q, n);
    }
  }

  /** The input after `presses` presses from `start`. */
  function Cycle(start: int, count: nat, presses: nat): (r: int)
    requires count > 0
    decreases presses
  {
    if presses == 0 then start else NextInput(Cycle(start, count, presses - 1), count).value
  }

  /** Within one lap, each press advances the input by one, wrapping past the last. */
  lemma {:induction false} CycleAdvances(start: int, count: nat, presses: nat)
    requires 1 <= start <= count && presses <= count
    ensures Cycle(start, count, presses) == if start + presses <= count then start + presses else start + presses - count
    decreases presses
  {
    if presses > 0 {
      CycleAdvances(start, count, presses - 1);
      NextInputWraps(Cycle(start, count, presses - 1), count);
    }
  }

  /** The inputs reached by 1 .. count presses from `start`. */
  function Reached(start: int, count: nat): set<int>
    requires count > 0
  {
    set presses | 1 <= presses <= count :: Cycle(start, count, presses)
  }

  /** Pressing as many times as there are sources comes back to the starting input,
      and every input is reached within that many presses. */
  lemma CycleVisitsAll(start: int, count: nat)
    requires 1 <= start <= count
    ensures Cycle(start, count, count) == start
    ensures forall id :: 1 <= id <= count ==> id in Reached(start, count)
  {
    CycleAdvances(start, count, count);
    forall id | 1 <= id <= count ensures id in Reached(start, count) {
      var presses := if id > start then id - start else id - start + count;
      CycleAdvances(start, count, presses);
    }
  }

  /** What a press does: nothing while the current input is unknown, otherwise route
      the next input (named sources[input_id - 1]) to this output. */
  datatype PressAction = Idle | Switch(input: int, source: string)

  function PressActionOf(current: Option<int>, sources: seq<string>): (r: Result<PressAction>)
    ensures current.None? ==> r == Success(Idle)
    ensures current.Some? && sources == [] ==> r == Failure(ZeroDivisionError)
    ensures current.Some? && sources != [] ==>
      r.Success? && r.value.Switch? && r.value.input == NextInput(current.value, |sources|).value &&
      r.value.source == sources[r.value.input - 1]
  {
    match current
    case None => Success(Idle)
    case Some(c) =>
      match NextInput(c, |sources|)
      case Failure(e) => Failure(e)
      case Success(id) => Success(Switch(id, sources[id - 1]))
  }

  class OutputButton {
    const outputId: int
    const sources: seq<string>
    /** The input id last seen routed to this output; None until the first update. */
    var current: Option<int>

    constructor(outputId: int, sources: seq<string>)
      ensures this.outputId == outputId && this.sources == sources && current == None
    {
      this.outputId := outputId;
      this.sources := sources;
      current := None;
    }

    /** _handle_coordinator_update: adopt outputs[output_id], unless there is no
        routing map; a map without this output raises KeyError. */
    method HandleCoordinatorUpdate(data: CoordinatorData) returns (o: Outcome)
      modifies this
      ensures NoOutputs(data) ==> o == Pass && current == old(current)
      ensures !NoOutputs(data) && Some(outputId) in data.outputs.value ==>
        o == Pass && current == data.outputs.value[Some(outputId)]
      ensures !NoOutputs(data) && Some(outputId) !in data.outputs.value ==>
        o == Fail(KeyError) && current == old(current)
    {
      if NoOutputs(data) {
        return Pass;
      }
      var outputs := data.outputs.value;
      if Some(outputId) !in outputs {
        return Fail(KeyError);
      }
      current := outputs[Some(outputId)];
      return Pass;
    }

    /** async_press: route the next input to this output through the client; nothing is
        sent while the current input is unknown or when there are no sources. */
    method Press(client: MatrixClient, net: Network) returns (o: Outcome)
      requires client.Valid()
      modifies client
      ensures client.Valid()
      ensures PressActionOf(current, sources).Failure? ==>
        o == Fail(ZeroDivisionError) && unchanged(client)
      ensures PressActionOf(current, sources) == Success(Idle) ==> o == Pass && unchanged(client)
      ensures PressActionOf(current, sources).Success? && PressActionOf(current, sources).value.Switch? ==>
        var req := Route(PressActionOf(current, sources).value.input, outputId);
        o == StatusOf(old(client.ReplyTo(CommandOf(req), net))) && client.Performed(CommandOf(req), net)
    {
      var action := PressActionOf(current, sources);
      if action.Failure? {
        return Fail(action.error);
      }
      if action.value.Idle? {
        return Pass;
      }
      o := client.SetOutputSource(action.value.input, outputId, net);
    }
  }
}
