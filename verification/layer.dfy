/**
 The `Layer` callbacks of src/layer.rs over an abstract span registry.

 The registry of the tracing framework is a map from live span ids to the
 span's static metadata and its attached `MetricData` extension; emitted
 metrics are appended to a log. A lookup that the source performs with
 `expect` (span missing, or span without metric data) is a precondition of
 the callback: it is the same panic in the source.
 */
module Layer {
  import opened Base
  import opened Names
  import opened SpanMetrics

  /** The framework's span id: a non-zero `u64`. */
  type SpanId = x: u64 | x != 0 witness 1

  /** A live span: its metadata and its metric-data extension. */
  datatype Span = Span(metadata: SpanMetadata, data: MetricData)

  /** Live spans by id, and every metric emitted so far. */
  datatype Bridge = Bridge(spans: map<SpanId, Span>, emitted: seq<Emission>)

  /** The bridge before any span exists. */
  function Initial(): (b: Bridge)
    ensures b.spans == map[] && b.emitted == []
  {
    Bridge(map[], [])
  }

  /** `new_span`: attach a fresh record to the span the framework just created. */
  function NewSpan(b: Bridge, id: SpanId, m: SpanMetadata): (r: Bridge)
    ensures r.spans.Keys == b.spans.Keys + {id}
    ensures r.spans[id].metadata == m
    ensures r.spans[id].data == Fresh()
    ensures forall other :: other in b.spans && other != id ==> r.spans[other] == b.spans[other]
    ensures r.emitted == b.emitted
  {
    b.(spans := b.spans[id := Span(m, Fresh())])
  }

  /** `on_enter`: panics when the span is unknown or its counter would overflow. */
  function OnEnter(b: Bridge, id: SpanId, now: u64): (r: Bridge)
    requires id in b.spans
    requires CanEnter(b.spans[id].data)
    ensures r.spans.Keys == b.spans.Keys
    ensures r.spans[id].metadata == b.spans[id].metadata
    ensures r.spans[id].data.enterCount as int == b.spans[id].data.enterCount as int + 1
    ensures r.spans[id].data.exited == b.spans[id].data.exited
    ensures b.spans[id].data.entered.Some? ==> r.spans[id].data.entered == b.spans[id].data.entered
    ensures b.spans[id].data.entered.None? ==> r.spans[id].data.entered == Some(now)
    ensures forall other :: other in b.spans && other != id ==> r.spans[other] == b.spans[other]
    ensures r.emitted == b.emitted
  {
    var span := b.spans[id];
    b.(spans := b.spans[id := span.(data := MarkEntered(span.data, now))])
  }

  /** `on_exit`: panics when the span is unknown. */
  function OnExit(b: Bridge, id: SpanId, now: u64): (r: Bridge)
    requires id in b.spans
    ensures r.spans.Keys == b.spans.Keys
    ensures r.spans[id] == b.spans[id].(data := b.spans[id].data.(exited := Some(now)))
    ensures forall other :: other in b.spans && other != id ==> r.spans[other] == b.spans[other]
    ensures r.emitted == b.emitted
  {
    var span := b.spans[id];
    b.(spans := b.spans[id := span.(data := MarkExited(span.data, now))])
  }

  /**
   `on_close`: flush the record under the span's metadata. The registry
   drops the span once the layer has seen the close, so the id leaves the map.
   */
  function OnClose(b: Bridge, id: SpanId): (r: Bridge)
    requires id in b.spans
    requires CanFlush(b.spans[id].data)
    ensures r.spans.Keys == b.spans.Keys - {id}
    ensures forall other :: other in r.spans ==> r.spans[other] == b.spans[other]
    ensures var d := b.spans[id].data; var m := b.spans[id].metadata;
      && (d.enterCount == 0 ==> r.emitted == b.emitted)
      && (d.enterCount > 0 ==>
            r.emitted == b.emitted + [Counter(CounterName(m), d.enterCount),
                                      Timing(TimingName(m), d.entered.value, d.exited.value)])
  {
    var span := b.spans[id];
    var flushed := Flush(span.data, span.metadata);
    Bridge(b.spans - {id}, b.emitted + flushed.1)
  }

  // ---------------------------------------------------------------------
  // Traces of callbacks

  /** One call from the tracing framework into the layer. */
  datatype Callback =
    | NewSpanCall(id: SpanId, metadata: SpanMetadata)
    | EnterCall(id: SpanId, now: u64)
    | ExitCall(id: SpanId, now: u64)
    | CloseCall(id: SpanId)
    | RecordCall(id: SpanId)  // `on_record`: field values are ignored
    | EventCall               // `on_event`: events are ignored

  /** The callback runs without panicking. */
  predicate CanStep(b: Bridge, c: Callback) {
    match c
    case NewSpanCall(_, _) => true
    case EnterCall(id, _) => id in b.spans && CanEnter(b.spans[id].data)
    case ExitCall(id, _) => id in b.spans
    case CloseCall(id) => id in b.spans && CanFlush(b.spans[id].data)
    case RecordCall(_) => true
    case EventCall => true
  }

  /** Dispatches one callback; recording fields and events change nothing. */
  function Step(b: Bridge, c: Callback): (r: Bridge)
    requires CanStep(b, c)
    ensures c.RecordCall? || c.EventCall? ==> r == b
    ensures c.EnterCall? || c.ExitCall? || c.NewSpanCall? ==> r.emitted == b.emitted
    ensures b.emitted <= r.emitted
  {
    match c
    case NewSpanCall(id, m) => NewSpan(b, id, m)
    case EnterCall(id, now) => OnEnter(b, id, now)
    case ExitCall(id, now) => OnExit(b, id, now)
    case CloseCall(id) => OnClose(b, id)
    case RecordCall(_) => b
    case EventCall => b
  }

  /** Runs a trace of callbacks; `None` when one of them panics. */
  function Run(b: Bridge, cs: seq<Callback>): Option<Bridge>
    decreases |cs|
  {
    if |cs| == 0 then Some(b)
    else if !CanStep(b, cs[0]) then None
    else Run(Step(b, cs[0]), cs[1..])
  }

  /** Running two traces back to back is running their concatenation. */
  lemma {:induction false} RunAppend(b: Bridge, xs: seq<Callback>, ys: seq<Callback>)
    ensures Run(b, xs + ys) == if Run(b, xs).None? then None else Run(Run(b, xs).value, ys)
    decreases |xs|
  {
    if |xs| == 0 {
      assert xs + ys == ys;
    } else {
      assert (xs + ys)[0] == xs[0];
      assert (xs + ys)[1..] == xs[1..] + ys;
      if CanStep(b, xs[0]) {
        RunAppend(Step(b, xs[0]), xs[1..], ys);
      }
    }
  }

  /** Emitted metrics are only ever appended to. */
  lemma {:induction false} RunOnlyAppends(b: Bridge, cs: seq<Callback>)
    requires Run(b, cs).Some?
    ensures b.emitted <= Run(b, cs).value.emitted
    decreases |cs|
  {
    if |cs| > 0 {
      RunOnlyAppends(Step(b, cs[0]), cs[1..]);
    }
  }

  /** The enters and exits of `marks`, delivered to span `id`. */
  function Deliver(id: SpanId, marks: seq<Mark>): (cs: seq<Callback>)
    ensures |cs| == |marks|
    decreases |marks|
  {
    if |marks| == 0 then []
    else
      var c := match marks[0]
        case Enter(now) => EnterCall(id, now)
        case Exit(now) => ExitCall(id, now);
      [c] + Deliver(id, marks[1..])
  }

  /** Delivering marks to a live span applies them to its record and to nothing else. */
  lemma {:induction false} RunDeliver(b: Bridge, id: SpanId, marks: seq<Mark>)
    requires id in b.spans
    requires FitsCounter(b.spans[id].data, marks)
    ensures Run(b, Deliver(id, marks))
            == Some(b.(spans := b.spans[id := b.spans[id].(data := Apply(b.spans[id].data, marks))]))
    decreases |marks|
  {
    var span := b.spans[id];
    if |marks| == 0 {
      assert b.spans[id := span.(data := span.data)] == b.spans;
    } else {
      var cs := Deliver(id, marks);
      var d' := if marks[0].Enter? then MarkEntered(span.data, marks[0].now)
                else MarkExited(span.data, marks[0].now);
      var b' := b.(spans := b.spans[id := span.(data := d')]);
      assert CanStep(b, cs[0]);
      assert Step(b, cs[0]) == b';
      assert cs[1..] == Deliver(id, marks[1..]);
      RunDeliver(b', id, marks[1..]);
      assert b'.spans[id := b'.spans[id].(data := Apply(d', marks[1..]))]
             == b.spans[id := span.(data := Apply(span.data, marks))];
    }
  }

  /**
   The whole life of one span: created, entered and exited as `marks` says,
   then closed. The bridge ends with the span gone, and has emitted nothing
   for a span never entered, else the enter count and the window from the
   first enter to the last exit. A span entered but never exited panics at close.
   */
  lemma SpanLifecycle(b: Bridge, id: SpanId, m: SpanMetadata, marks: seq<Mark>)
    requires id !in b.spans
    requires FitsCounter(Fresh(), marks)
    ensures CountEnters(marks) > 0 <==> FirstEnter(marks).Some?
    ensures var trace := [NewSpanCall(id, m)] + Deliver(id, marks) + [CloseCall(id)];
      && (CountEnters(marks) == 0 ==> Run(b, trace) == Some(b))
      && (CountEnters(marks) > 0 && LastExit(marks).Some? ==>
            Run(b, trace) == Some(b.(emitted := b.emitted + [
              Counter(CounterName(m), CountEnters(marks) as u64),
              Timing(TimingName(m), FirstEnter(marks).value, LastExit(marks).value)])))
      && (CountEnters(marks) > 0 && LastExit(marks).None? ==> Run(b, trace) == None)
  {
    FlushAfterMarks(marks, m);
    ApplySummary(Fresh(), marks);
    var created := NewSpan(b, id, m);
    var middle := Deliver(id, marks);
    RunDeliver(created, id, marks);
    var entered := created.(spans := created.spans[id := Span(m, Apply(Fresh(), marks))]);
    assert Run(created, middle) == Some(entered);
    assert Run(b, [NewSpanCall(id, m)]) == Some(created);
    RunAppend(b, [NewSpanCall(id, m)], middle);
    RunAppend(b, [NewSpanCall(id, m)] + middle, [CloseCall(id)]);
    assert entered.spans - {id} == b.spans;
  }

  /** A closed span is gone: a later enter, exit or close on its id panics (an `expect`). */
  lemma ClosedSpanIsGone(b: Bridge, id: SpanId, now: u64)
    requires id in b.spans && CanFlush(b.spans[id].data)
    ensures !CanStep(OnClose(b, id), EnterCall(id, now))
    ensures !CanStep(OnClose(b, id), ExitCall(id, now))
    ensures !CanStep(OnClose(b, id), CloseCall(id))
  {
  }

  /** An id reused after close starts from a fresh record, whatever the old span held. */
  lemma ReusedIdStartsFresh(b: Bridge, id: SpanId, m: SpanMetadata)
    requires id in b.spans && CanFlush(b.spans[id].data)
    ensures NewSpan(OnClose(b, id), id, m).spans[id] == Span(m, Fresh())
  {
  }

  /** Scenario: span `app::shave` entered at 100, exited at 250, closed. */
  lemma ShaveScenario(id: SpanId)
    ensures Run(Initial(), [NewSpanCall(id, SpanMetadata("app", "shave")), EnterCall(id, 100),
                            ExitCall(id, 250), CloseCall(id)])
            == Some(Bridge(map[], [Counter("app_shave", 1), Timing("app_shave_ns", 100, 250)]))
  {
    var m := SpanMetadata("app", "shave");
    SpanLifecycle(Initial(), id, m, [Enter(100), Exit(250)]);
    assert [NewSpanCall(id, m)] + Deliver(id, [Enter(100), Exit(250)]) + [CloseCall(id)]
           == [NewSpanCall(id, m), EnterCall(id, 100), ExitCall(id, 250), CloseCall(id)];
    assert CountEnters([Enter(100), Exit(250)]) == 1;
    assert FirstEnter([Enter(100), Exit(250)]) == Some(100);
    assert LastExit([Enter(100), Exit(250)]) == Some(250);
    assert CounterName(m) == "app_shave" && TimingName(m) == "app_shave_ns" by {
      assert NoSep("app");
      PlainTargetName(m);
    }
    var trace := [NewSpanCall(id, m)] + Deliver(id, [Enter(100), Exit(250)]) + [CloseCall(id)];
    assert Run(Initial(), trace) == Some(Initial().(emitted := Initial().emitted + [
              Counter(CounterName(m), 1), Timing(TimingName(m), 100, 250)]));
    assert Initial().(emitted := Initial().emitted + [
              Counter(CounterName(m), 1), Timing(TimingName(m), 100, 250)])
           == Bridge(map[], [Counter("app_shave", 1), Timing("app_shave_ns", 100, 250)]);
  }
}
