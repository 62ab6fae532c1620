/** The reader's main loop as a two-state machine. Acquiring: run
    discovery until a GPS port is found. Streaming: on each pass read the
    clock, discard lines until one starts with `$GPGGA`, decode it and, when
    it gives a fix, append one fix record stamped with that clock reading;
    when a read raises SerialException, append one exception record stamped
    with the same reading and go back to Acquiring.

    The outside world is a finite environment: the ports as each sweep
    finds them, the results of the input on whichever port is connected,
    and the clock readings. The program itself never stops; the model stops
    when the environment runs out, or where the program would crash. */
module Acquisition {
  import opened Text
  import opened Gga
  import opened Discovery
  import opened Options

  /** A clock reading; only its position in the log matters here. */
  type Timestamp = nat

  /** The result of one read on the connected port: a line as received,
      or a SerialException and its message. */
  datatype Read = Line(text: string) | Failure(message: string)

  /** A line of the log: a decoded fix, or the note of a SerialException. */
  datatype Record = FixRecord(time: Timestamp, fix: Fix) | ExceptionRecord(time: Timestamp, message: string)

  datatype State = Acquiring | Streaming(port: nat)

  /** Why the model stopped: discovery ran out of sweeps, the connected
      port or the clock ran out of input, or a coordinate that `float`
      rejects crashed the program. */
  datatype Stop = StillSweeping | AwaitingInput | Crashed

  datatype Environment = Environment(sweeps: seq<Ports>, input: seq<Read>, clock: seq<Timestamp>)

  datatype Outcome = Outcome(log: seq<Record>, state: State, stop: Stop)

  /** A line the read loop keeps: it starts with `$GPGGA` once stripped. */
  predicate IsGgaLine(r: Read)
  {
    r.Line? && StartsWith(Strip(r.text), Talker)
  }

  /** A read that ends the read loop: a GGA line, or a failure. */
  predicate EndsRead(r: Read)
  {
    r.Failure? || IsGgaLine(r)
  }

  /** The first read at or after `from` that ends the read loop. */
  function NextEvent(input: seq<Read>, from: nat): (r: Option<nat>)
    requires from <= |input|
    ensures r.Some? ==> from <= r.value < |input| && EndsRead(input[r.value])
    ensures r.Some? ==> forall j :: from <= j < r.value ==> !EndsRead(input[j])
    ensures r.None? ==> forall j :: from <= j < |input| ==> !EndsRead(input[j])
    decreases |input| - from
  {
    if from == |input| then None
    else if EndsRead(input[from]) then Some(from)
    else NextEvent(input, from + 1)
  }

  function Prepend(records: seq<Record>, o: Outcome): Outcome
  {
    o.(log := records + o.log)
  }

  /** What the reader does from `state` in environment `env`: the records
      it appends to the log, the state it ends in and why it stops. */
  function Trace(state: State, env: Environment): Outcome
    decreases |env.sweeps| + |env.clock|
  {
    match state
    case Acquiring =>
      (match Discover(env.sweeps)
       case None => Outcome([], Acquiring, StillSweeping)
       case Some(c) => Trace(Streaming(c.port), env.(sweeps := env.sweeps[c.sweep + 1..])))
    case Streaming(_) =>
      if env.clock == [] then Outcome([], state, AwaitingInput)
      else
        var now := env.clock[0];
        match NextEvent(env.input, 0)
        case None => Outcome([], state, AwaitingInput)
        case Some(i) =>
          var next := env.(input := env.input[i + 1..], clock := env.clock[1..]);
          match env.input[i]
          case Failure(message) => Prepend([ExceptionRecord(now, message)], Trace(Acquiring, next))
          case Line(text) =>
            match DecodeGga(Strip(text))
            case Accepted(fix) => Prepend([FixRecord(now, fix)], Trace(state, next))
            case Unparsable => Outcome([], state, Crashed)
            case _ => Trace(state, next)
  }

  /** The read loop (`while not line.startswith('$GPGGA')`): the index of
      the first read that is a GGA line or a failure, every read before it
      being a line discarded; `|input|` when the input runs out first. */
  method ReadUntilGga(input: seq<Read>) returns (i: nat)
    ensures i <= |input|
    ensures i < |input| ==> EndsRead(input[i])
    ensures forall j :: 0 <= j < i ==> !EndsRead(input[j])
    ensures i < |input| <==> NextEvent(input, 0).Some?
    ensures i < |input| ==> NextEvent(input, 0).value == i
  {
    i := 0;
    while i < |input| && !EndsRead(input[i])
      invariant i <= |input|
      invariant forall j :: 0 <= j < i ==> !EndsRead(input[j])
    {
      i := i + 1;
    }
  }

  lemma PrependAppend(log: seq<Record>, records: seq<Record>, o: Outcome)
    ensures Prepend(log, Prepend(records, o)) == Prepend(log + records, o)
  {
    assert log + (records + o.log) == (log + records) + o.log;
  }

  /** One pass of the streaming loop that ends at read `i`. */
  lemma StreamingPass(port: nat, env: Environment, i: nat)
    requires env.clock != [] && NextEvent(env.input, 0) == Some(i)
    ensures var next := env.(input := env.input[i + 1..], clock := env.clock[1..]);
      Trace(Streaming(port), env)
        == match env.input[i]
           case Failure(message) => Prepend([ExceptionRecord(env.clock[0], message)], Trace(Acquiring, next))
           case Line(text) =>
             match DecodeGga(Strip(text))
             case Accepted(fix) => Prepend([FixRecord(env.clock[0], fix)], Trace(Streaming(port), next))
             case Unparsable => Outcome([], Streaming(port), Crashed)
             case _ => Trace(Streaming(port), next)
  {
  }

  /** The whole program, from start-up in Acquiring: the log it writes is
      the one `Trace` describes. Discovery at start-up and after a failure
      is the same `Connect`. */
  method Run(env: Environment) returns (log: seq<Record>, state: State, stop: Stop)
    ensures Outcome(log, state, stop) == Trace(Acquiring, env)
  {
    log, state := [], Acquiring;
    var sweeps, input, clock := env.sweeps, env.input, env.clock;
    while true
      invariant Trace(Acquiring, env) == Prepend(log, Trace(state, Environment(sweeps, input, clock)))
      decreases |sweeps| + |clock|
    {
      ghost var here := Environment(sweeps, input, clock);
      if state.Acquiring? {
        var connection, probed := Connect(sweeps);
        if connection.None? {
          stop := StillSweeping;
          return;
        }
        state := Streaming(connection.value.port);
        sweeps := sweeps[connection.value.sweep + 1..];
        assert Trace(Acquiring, here) == Trace(state, Environment(sweeps, input, clock));
      } else {
        if clock == [] {
          stop := AwaitingInput;
          return;
        }
        var now := clock[0];
        var i := ReadUntilGga(input);
        if i == |input| {
          stop := AwaitingInput;
          return;
        }
        StreamingPass(state.port, here, i);
        var r := input[i];
        input, clock := input[i + 1..], clock[1..];
        ghost var next := Environment(sweeps, input, clock);
        match r
        case Failure(message) =>
          PrependAppend(log, [ExceptionRecord(now, message)], Trace(Acquiring, next));
          log := log + [ExceptionRecord(now, message)];
          state := Acquiring;
        case Line(text) =>
          match DecodeGga(Strip(text))
          case Accepted(fix) =>
            PrependAppend(log, [FixRecord(now, fix)], Trace(state, next));
            log := log + [FixRecord(now, fix)];
          case Unparsable =>
            stop := Crashed;
            return;
          case _ =>
      }
    }
  }

  /** The lines `texts`, received in order. */
  function Lines(texts: seq<string>): (r: seq<Read>)
    ensures |r| == |texts| && forall i :: 0 <= i < |r| ==> r[i] == Line(texts[i])
  {
    seq(|texts|, i requires 0 <= i < |texts| => Line(texts[i]))
  }

  /** A line that ends the read loop and that the reader gets past: it
      gives a fix, or it has too few fields or an empty latitude and is
      dropped. (A line not starting with `$GPGGA` does not end the read
      loop; `DiscardedLineIgnored` covers those.) */
  predicate Handled(text: string)
  {
    var d := DecodeGga(Strip(text));
    d.Accepted? || d.TooFewFields? || d.NoFix?
  }

  predicate AllHandled(texts: seq<string>)
  {
    forall i :: 0 <= i < |texts| ==> Handled(texts[i])
  }

  /** What the reader makes of each of the lines `texts`. */
  function Outcomes(texts: seq<string>): (outcomes: seq<Decoded>)
    ensures |outcomes| == |texts|
  {
    if texts == [] then [] else [DecodeGga(Strip(texts[0]))] + Outcomes(texts[1..])
  }

  lemma {:induction false} OutcomesSpec(texts: seq<string>)
    ensures forall j :: 0 <= j < |texts| ==> Outcomes(texts)[j] == DecodeGga(Strip(texts[j]))
    decreases |texts|
  {
    if texts != [] {
      OutcomesSpec(texts[1..]);
      assert forall j :: 1 <= j < |texts| ==> texts[j] == texts[1..][j - 1];
    }
  }

  /** The records the passes over lines with the outcomes `outcomes`
      write, the pass of the `j`-th line reading `times[j]`: one fix record
      for each line giving a fix, nothing for the others. */
  function PassRecords(times: seq<Timestamp>, outcomes: seq<Decoded>): seq<Record>
    requires |times| >= |outcomes|
  {
    if outcomes == [] then [] else PassRecord(times[0], outcomes[0]) + PassRecords(times[1..], outcomes[1..])
  }

  /** The record a pass reading `time` writes for a line with outcome `d`. */
  function PassRecord(time: Timestamp, d: Decoded): seq<Record>
  {
    if d.Accepted? then [FixRecord(time, d.fix)] else []
  }

  /** When every line gives a fix, there is one fix record per line, the
      `j`-th holding the fix of the `j`-th line stamped with `times[j]`. */
  lemma {:induction false} AllFixes(times: seq<Timestamp>, outcomes: seq<Decoded>)
    requires |times| >= |outcomes|
    requires forall j :: 0 <= j < |outcomes| ==> outcomes[j].Accepted?
    ensures |PassRecords(times, outcomes)| == |outcomes|
    ensures forall j :: 0 <= j < |outcomes| ==> PassRecords(times, outcomes)[j] == FixRecord(times[j], outcomes[j].fix)
    decreases |outcomes|
  {
    if outcomes != [] {
      AllFixes(times[1..], outcomes[1..]);
    }
  }

  /** Lines that give no fix write no record. */
  lemma {:induction false} NoFixes(times: seq<Timestamp>, outcomes: seq<Decoded>)
    requires |times| >= |outcomes|
    requires forall j :: 0 <= j < |outcomes| ==> !outcomes[j].Accepted?
    ensures PassRecords(times, outcomes) == []
    decreases |outcomes|
  {
    if outcomes != [] {
      NoFixes(times[1..], outcomes[1..]);
    }
  }

  /** The records of two runs of lines, one after the other, are the
      records of the first followed by those of the second, which reads
      the clock from where the first stopped. */
  lemma {:induction false} PassRecordsConcat(times: seq<Timestamp>, first: seq<Decoded>, second: seq<Decoded>)
    requires |times| >= |first| + |second|
    ensures PassRecords(times, first + second) == PassRecords(times, first) + PassRecords(times[|first|..], second)
    decreases |first|
  {
    var both := first + second;
    if first == [] {
      assert both == second && times[|first|..] == times;
    } else {
      assert both[0] == first[0] && both[1..] == first[1..] + second;
      PassRecordsConcat(times[1..], first[1..], second);
      assert times[1..][|first| - 1..] == times[|first|..];
    }
  }

  /** A pass that meets a failure first appends one exception record and
      returns to discovery. */
  lemma FailurePass(port: nat, message: string, env: Environment)
    requires env.clock != []
    ensures Trace(Streaming(port), env.(input := [Failure(message)] + env.input))
         == Prepend([ExceptionRecord(env.clock[0], message)], Trace(Acquiring, env.(clock := env.clock[1..])))
  {
    var input := [Failure(message)] + env.input;
    assert NextEvent(input, 0) == Some(0);
    StreamingPass(port, env.(input := input), 0);
    assert input[1..] == env.input;
  }

  /** A pass that meets a line giving a fix first appends one fix record
      and goes on streaming. */
  lemma FixPass(port: nat, text: string, env: Environment)
    requires env.clock != [] && DecodeGga(Strip(text)).Accepted?
    ensures Trace(Streaming(port), env.(input := [Line(text)] + env.input))
         == Prepend([FixRecord(env.clock[0], DecodeGga(Strip(text)).fix)], Trace(Streaming(port), env.(clock := env.clock[1..])))
  {
    var input := [Line(text)] + env.input;
    DecodeGuards(Strip(text));
    assert IsGgaLine(input[0]);
    assert NextEvent(input, 0) == Some(0);
    StreamingPass(port, env.(input := input), 0);
    assert input[1..] == env.input;
  }

  /** A line that has too few fields or an empty latitude writes nothing,
      and streaming goes on with the next pass. */
  lemma RejectedPass(port: nat, text: string, env: Environment)
    requires env.clock != [] && (DecodeGga(Strip(text)).TooFewFields? || DecodeGga(Strip(text)).NoFix?)
    ensures Trace(Streaming(port), env.(input := [Line(text)] + env.input))
         == Trace(Streaming(port), env.(clock := env.clock[1..]))
  {
    var input := [Line(text)] + env.input;
    DecodeGuards(Strip(text));
    assert IsGgaLine(input[0]);
    assert NextEvent(input, 0) == Some(0);
    StreamingPass(port, env.(input := input), 0);
    assert input[1..] == env.input;
  }

  /** One pass over a handled line writes that line's records. */
  lemma HandledPass(port: nat, text: string, env: Environment)
    requires env.clock != [] && Handled(text)
    ensures Trace(Streaming(port), env.(input := [Line(text)] + env.input))
         == Prepend(PassRecord(env.clock[0], DecodeGga(Strip(text))), Trace(Streaming(port), env.(clock := env.clock[1..])))
  {
    var rest := Trace(Streaming(port), env.(clock := env.clock[1..]));
    if DecodeGga(Strip(text)).Accepted? {
      FixPass(port, text, env);
    } else {
      RejectedPass(port, text, env);
      assert [] + rest.log == rest.log;
    }
  }

  /** A connection that delivers `n` GGA lines, each giving a fix or
      being dropped for too few fields or an empty latitude, and then
      fails, writes one fix record for each line giving a fix, stamped with
      the clock reading of that line's pass, followed by exactly one
      exception record stamped with the reading after those `n`, and the
      reader goes back to discovery. */
  lemma {:induction false} FixesThenFailure(port: nat, texts: seq<string>, message: string, env: Environment)
    requires AllHandled(texts) && |texts| < |env.clock|
    ensures Trace(Streaming(port), env.(input := Lines(texts) + [Failure(message)] + env.input))
         == Prepend(PassRecords(env.clock, Outcomes(texts)) + [ExceptionRecord(env.clock[|texts|], message)],
                    Trace(Acquiring, env.(clock := env.clock[|texts| + 1..])))
    decreases |texts|
  {
    var n := |texts|;
    if n == 0 {
      assert Lines(texts) + [Failure(message)] + env.input == [Failure(message)] + env.input;
      FailurePass(port, message, env);
    } else {
      var first := PassRecord(env.clock[0], DecodeGga(Strip(texts[0])));
      var exception := ExceptionRecord(env.clock[n], message);
      var rest := Trace(Acquiring, env.(clock := env.clock[n + 1..]));
      var start := env.(input := Lines(texts) + [Failure(message)] + env.input);
      var later := env.(input := Lines(texts[1..]) + [Failure(message)] + env.input);
      var shorter := env.(clock := env.clock[1..]);
      LinesCons(texts, Failure(message), env.input);
      assert start == later.(input := [Line(texts[0])] + later.input);
      HandledPass(port, texts[0], later);
      assert AllHandled(texts[1..]);
      FixesThenFailure(port, texts[1..], message, shorter);
      assert shorter.(input := Lines(texts[1..]) + [Failure(message)] + shorter.input) == later.(clock := later.clock[1..]);
      assert shorter.(clock := shorter.clock[n..]) == env.(clock := env.clock[n + 1..]);
      PassRecordsStep(texts, message, env.clock);
      PrependAppend(first, PassRecords(shorter.clock, Outcomes(texts[1..])) + [exception], rest);
    }
  }

  lemma LinesCons(texts: seq<string>, last: Read, rest: seq<Read>)
    requires texts != []
    ensures Lines(texts) + [last] + rest == [Line(texts[0])] + (Lines(texts[1..]) + [last] + rest)
  {
    assert Lines(texts) == [Line(texts[0])] + Lines(texts[1..]);
  }

  lemma PassRecordsStep(texts: seq<string>, message: string, clock: seq<Timestamp>)
    requires 0 < |texts| < |clock|
    ensures PassRecord(clock[0], DecodeGga(Strip(texts[0])))
              + (PassRecords(clock[1..], Outcomes(texts[1..])) + [ExceptionRecord(clock[|texts|], message)])
         == PassRecords(clock, Outcomes(texts)) + [ExceptionRecord(clock[|texts|], message)]
  {
    var outcomes := Outcomes(texts);
    assert outcomes[0] == DecodeGga(Strip(texts[0])) && outcomes[1..] == Outcomes(texts[1..]);
    assert PassRecord(clock[0], outcomes[0]) + PassRecords(clock[1..], outcomes[1..]) == PassRecords(clock, outcomes);
  }

  /** Each pass of the streaming loop appends at most one record, so the
      log never has more records than the clock was read. */
  lemma {:induction false} LogBound(state: State, env: Environment)
    ensures |Trace(state, env).log| <= |env.clock|
    decreases |env.sweeps| + |env.clock|
  {
    match state
    case Acquiring =>
      var c := Discover(env.sweeps);
      if c.Some? {
        LogBound(Streaming(c.value.port), env.(sweeps := env.sweeps[c.value.sweep + 1..]));
      }
    case Streaming(port) =>
      if env.clock != [] && NextEvent(env.input, 0).Some? {
        var i := NextEvent(env.input, 0).value;
        var next := env.(input := env.input[i + 1..], clock := env.clock[1..]);
        StreamingPass(port, env, i);
        LogBound(Acquiring, next);
        LogBound(state, next);
      }
  }

  /** Inserting a read that does not end the read loop moves the end of
      the read loop by one if it arrives before it, and not at all
      otherwise. */
  lemma {:induction false} InsertedNextEvent(input: seq<Read>, k: nat, r: Read)
    requires k <= |input| && !EndsRead(r)
    ensures var inserted := input[..k] + [r] + input[k..];
      match NextEvent(input, 0)
      case None => NextEvent(inserted, 0).None?
      case Some(i) => NextEvent(inserted, 0) == Some(if i < k then i else i + 1)
  {
    var inserted := input[..k] + [r] + input[k..];
    assert forall j :: 0 <= j < k ==> inserted[j] == input[j];
    assert forall j :: k < j < |inserted| ==> inserted[j] == input[j - 1];
    match NextEvent(input, 0)
    case None =>
      forall j | 0 <= j < |inserted|
        ensures !EndsRead(inserted[j])
      {
        if j > k {
          assert !EndsRead(input[j - 1]);
        }
      }
    case Some(i) =>
      if i < k {
        NextEventAt(inserted, i);
      } else {
        assert forall j :: 0 <= j < i + 1 ==> !EndsRead(inserted[j]) by {
          forall j | 0 <= j < i + 1
            ensures !EndsRead(inserted[j])
          {
            if j > k {
              assert !EndsRead(input[j - 1]);
            }
          }
        }
        NextEventAt(inserted, i + 1);
      }
  }

  /** The read at `i` is the first that ends the read loop. */
  lemma NextEventAt(input: seq<Read>, i: nat)
    requires i < |input| && EndsRead(input[i])
    requires forall j :: 0 <= j < i ==> !EndsRead(input[j])
    ensures NextEvent(input, 0) == Some(i)
  {
  }

  /** A line that does not start with `$GPGGA` once stripped changes
      nothing, wherever it arrives in the input: it is read and dropped
      without a record, without a clock reading and without a state
      change. */
  lemma {:induction false} DiscardedLineIgnored(state: State, env: Environment, k: nat, text: string)
    requires k <= |env.input| && !StartsWith(Strip(text), Talker)
    ensures Trace(state, env.(input := env.input[..k] + [Line(text)] + env.input[k..])) == Trace(state, env)
    decreases |env.sweeps| + |env.clock|, 1
  {
    match state
    case Acquiring =>
      DiscardWhileAcquiring(env, k, text);
    case Streaming(port) =>
      if env.clock != [] && NextEvent(env.input, 0).Some? {
        var i := NextEvent(env.input, 0).value;
        if i < k {
          DiscardBeforeEvent(port, env, k, text, i);
        } else {
          DiscardAfterEvent(port, env, k, text, i);
        }
      } else {
        InsertedNextEvent(env.input, k, Line(text));
        NoPass(port, env, env.(input := env.input[..k] + [Line(text)] + env.input[k..]));
      }
  }

  /** Discovery does not read the input, so the inserted line waits for
      the port it connects to. */
  lemma {:induction false} DiscardWhileAcquiring(env: Environment, k: nat, text: string)
    requires k <= |env.input| && !StartsWith(Strip(text), Talker)
    ensures Trace(Acquiring, env.(input := env.input[..k] + [Line(text)] + env.input[k..])) == Trace(Acquiring, env)
    decreases |env.sweeps| + |env.clock|, 0
  {
    var input := env.input[..k] + [Line(text)] + env.input[k..];
    var c := Discover(env.sweeps);
    if c.Some? {
      var later := env.(sweeps := env.sweeps[c.value.sweep + 1..]);
      DiscardedLineIgnored(Streaming(c.value.port), later, k, text);
      assert env.(input := input).(sweeps := env.sweeps[c.value.sweep + 1..]) == later.(input := input);
    }
    SameDiscovery(env, env.(input := input));
  }

  /** A discarded line inserted after the read that ends this pass is
      left for the passes that follow. */
  lemma {:induction false} DiscardBeforeEvent(port: nat, env: Environment, k: nat, text: string, i: nat)
    requires k <= |env.input| && !StartsWith(Strip(text), Talker)
    requires env.clock != [] && NextEvent(env.input, 0) == Some(i) && i < k
    ensures Trace(Streaming(port), env.(input := env.input[..k] + [Line(text)] + env.input[k..])) == Trace(Streaming(port), env)
    decreases |env.sweeps| + |env.clock|, 0
  {
    var input := env.input[..k] + [Line(text)] + env.input[k..];
    var next := env.(input := env.input[i + 1..], clock := env.clock[1..]);
    InsertedLater(env.input, k, Line(text), i);
    assert env.(input := input).(input := input[i + 1..], clock := env.clock[1..])
        == next.(input := next.input[..k - i - 1] + [Line(text)] + next.input[k - i - 1..]);
    DiscardedLineIgnored(Acquiring, next, k - i - 1, text);
    DiscardedLineIgnored(Streaming(port), next, k - i - 1, text);
    InsertedNextEvent(env.input, k, Line(text));
    SamePass(port, env, env.(input := input), i, i);
  }

  /** A discarded line inserted before the read that ends this pass is
      dropped by this pass's read loop. */
  lemma DiscardAfterEvent(port: nat, env: Environment, k: nat, text: string, i: nat)
    requires k <= |env.input| && !StartsWith(Strip(text), Talker)
    requires env.clock != [] && NextEvent(env.input, 0) == Some(i) && k <= i
    ensures Trace(Streaming(port), env.(input := env.input[..k] + [Line(text)] + env.input[k..])) == Trace(Streaming(port), env)
  {
    var input := env.input[..k] + [Line(text)] + env.input[k..];
    InsertedNextEvent(env.input, k, Line(text));
    InsertedEarlier(env.input, k, Line(text), i);
    SameRestPass(port, env, env.(input := input), i, i + 1);
  }

  /** Two passes that end at the same read and leave the same reads
      behind do the same. */
  lemma SameRestPass(port: nat, env: Environment, env': Environment, i: nat, i': nat)
    requires env.clock != [] && env'.clock == env.clock && env'.sweeps == env.sweeps
    requires NextEvent(env.input, 0) == Some(i) && NextEvent(env'.input, 0) == Some(i')
    requires env'.input[i'] == env.input[i] && env'.input[i' + 1..] == env.input[i + 1..]
    ensures Trace(Streaming(port), env') == Trace(Streaming(port), env)
  {
    assert env'.(input := env'.input[i' + 1..], clock := env'.clock[1..]) == env.(input := env.input[i + 1..], clock := env.clock[1..]);
    SamePass(port, env, env', i, i');
  }

  /** A read inserted at or before read `i` moves it, and what follows it,
      one place on. */
  lemma InsertedEarlier(input: seq<Read>, k: nat, r: Read, i: nat)
    requires k <= i < |input|
    ensures var inserted := input[..k] + [r] + input[k..];
      inserted[i + 1] == input[i] && inserted[i + 2..] == input[i + 1..]
  {
  }

  /** After read `i`, a read inserted further on is still inserted. */
  lemma InsertedLater(input: seq<Read>, k: nat, r: Read, i: nat)
    requires i < k <= |input|
    ensures var inserted := input[..k] + [r] + input[k..];
      && inserted[i] == input[i]
      && inserted[i + 1..] == input[i + 1..][..k - i - 1] + [r] + input[i + 1..][k - i - 1..]
  {
  }

  /** Discovery depends on the sweeps alone: environments that agree on
      them, and from which the connected port streams alike, give the same
      outcome from `Acquiring`. */
  lemma SameDiscovery(env: Environment, env': Environment)
    requires env'.sweeps == env.sweeps
    requires var c := Discover(env.sweeps);
      c.Some? ==>
        Trace(Streaming(c.value.port), env'.(sweeps := env.sweeps[c.value.sweep + 1..]))
          == Trace(Streaming(c.value.port), env.(sweeps := env.sweeps[c.value.sweep + 1..]))
    ensures Trace(Acquiring, env') == Trace(Acquiring, env)
  {
  }

  /** Streaming with no clock reading left, or no read that ends the read
      loop, awaits input whatever the rest of the environment holds. */
  lemma NoPass(port: nat, env: Environment, env': Environment)
    requires env'.clock == env.clock
    requires env.clock == [] || (NextEvent(env.input, 0).None? && NextEvent(env'.input, 0).None?)
    ensures Trace(Streaming(port), env') == Trace(Streaming(port), env)
  {
  }

  /** Two streaming passes that end at the same read, in environments
      that agree on the sweeps and the clock and from which both states
      go on alike, give the same outcome. */
  lemma SamePass(port: nat, env: Environment, env': Environment, i: nat, i': nat)
    requires env.clock != [] && env'.clock == env.clock && env'.sweeps == env.sweeps
    requires NextEvent(env.input, 0) == Some(i) && NextEvent(env'.input, 0) == Some(i')
    requires env'.input[i'] == env.input[i]
    requires var next := env.(input := env.input[i + 1..], clock := env.clock[1..]);
      var next' := env'.(input := env'.input[i' + 1..], clock := env'.clock[1..]);
      Trace(Acquiring, next') == Trace(Acquiring, next) && Trace(Streaming(port), next') == Trace(Streaming(port), next)
    ensures Trace(Streaming(port), env') == Trace(Streaming(port), env)
  {
    StreamingPass(port, env, i);
    StreamingPass(port, env', i');
  }
}
