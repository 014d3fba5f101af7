/**
 Per-span metric state (`MetricData` of src/layer.rs) and its transitions:
 entering bumps the counter and latches the FIRST enter time, exiting
 overwrites the last exit time, and flushing on close emits a counter and a
 timing when the span was entered at least once.

 A panic of the source (`unwrap` on a missing timestamp, overflow of the
 `u64` counter) is a precondition here.
 */
module SpanMetrics {
  import opened Base
  import opened Names

  /** Per-span record: how often it was entered, first enter time, last exit time. */
  datatype MetricData = MetricData(enterCount: u64, entered: Option<u64>, exited: Option<u64>)

  /** What the bridge hands to the metrics sink. */
  datatype Emission =
    | Counter(key: string, value: u64)
    | Timing(key: string, start: u64, end: u64)

  /** The record attached to a freshly created span (`#[derive(Default)]`). */
  function Fresh(): (d: MetricData)
    ensures d.enterCount == 0 && d.entered.None? && d.exited.None?
  {
    MetricData(0, None, None)
  }

  /** The counter was entered at least once exactly when a first enter time is latched. */
  predicate Consistent(d: MetricData) {
    d.enterCount > 0 <==> d.entered.Some?
  }

  /** Entering does not overflow the `u64` counter (`+= 1` panics otherwise). */
  predicate CanEnter(d: MetricData) {
    d.enterCount as int < U64_MAX
  }

  /** `mark_entered(now)`. */
  function MarkEntered(d: MetricData, now: u64): (r: MetricData)
    requires CanEnter(d)
    ensures r.enterCount as int == d.enterCount as int + 1
    ensures r.exited == d.exited
    ensures r.entered.Some?
    ensures d.entered.Some? ==> r.entered == d.entered
    ensures d.entered.None? ==> r.entered == Some(now)
  {
    var latched := if d.entered.None? then Some(now) else d.entered;
    d.(enterCount := d.enterCount + 1, entered := latched)
  }

  /** `mark_exited(now)`. */
  function MarkExited(d: MetricData, now: u64): (r: MetricData)
    ensures r.exited == Some(now)
    ensures r.enterCount == d.enterCount && r.entered == d.entered
  {
    d.(exited := Some(now))
  }

  /** Both transitions keep the counter and the first-enter latch in step. */
  lemma MarksPreserveConsistent(d: MetricData, now: u64)
    requires Consistent(d)
    ensures CanEnter(d) ==> Consistent(MarkEntered(d, now))
    ensures Consistent(MarkExited(d, now))
  {
  }

  /** The two `unwrap`s of `flush` succeed: an entered span has both timestamps. */
  predicate CanFlush(d: MetricData) {
    d.enterCount > 0 ==> d.entered.Some? && d.exited.Some?
  }

  /** `flush(metadata)`: the emissions, in order, and the record afterwards. */
  function Flush(d: MetricData, m: SpanMetadata): (r: (MetricData, seq<Emission>))
    requires CanFlush(d)
    ensures d.enterCount == 0 ==> r.0 == d && r.1 == []
    ensures d.enterCount > 0 ==>
      && r.1 == [Counter(CounterName(m), d.enterCount),
                 Timing(TimingName(m), d.entered.value, d.exited.value)]
      && r.0 == MetricData(d.enterCount, None, None)
  {
    if d.enterCount > 0 then
      var counter := Counter(CounterName(m), d.enterCount);
      var timing := Timing(TimingName(m), d.entered.value, d.exited.value);
      (d.(entered := None, exited := None), [counter, timing])
    else
      (d, [])
  }

  // ---------------------------------------------------------------------
  // Sequences of enters and exits on one span

  /** One clock-stamped transition of a span. */
  datatype Mark = Enter(now: u64) | Exit(now: u64)

  /** Number of enters in `marks`. */
  function CountEnters(marks: seq<Mark>): nat {
    if |marks| == 0 then 0
    else (if marks[0].Enter? then 1 else 0) + CountEnters(marks[1..])
  }

  /** Clock reading of the first enter in `marks`, if any. */
  function FirstEnter(marks: seq<Mark>): Option<u64> {
    if |marks| == 0 then None
    else if marks[0].Enter? then Some(marks[0].now)
    else FirstEnter(marks[1..])
  }

  /** Clock reading of the last exit in `marks`, if any. */
  function LastExit(marks: seq<Mark>): Option<u64> {
    if |marks| == 0 then None
    else if marks[|marks| - 1].Exit? then Some(marks[|marks| - 1].now)
    else LastExit(marks[..|marks| - 1])
  }

  /** The counter cannot overflow while `marks` is applied to `d`. */
  predicate FitsCounter(d: MetricData, marks: seq<Mark>) {
    d.enterCount as int + CountEnters(marks) <= U64_MAX
  }

  /** Applies `marks` in order, as the callbacks would. */
  function Apply(d: MetricData, marks: seq<Mark>): MetricData
    requires FitsCounter(d, marks)
    decreases |marks|
  {
    if |marks| == 0 then d
    else
      var d' := if marks[0].Enter? then MarkEntered(d, marks[0].now) else MarkExited(d, marks[0].now);
      Apply(d', marks[1..])
  }

  lemma {:induction false} LastExitCons(m: Mark, marks: seq<Mark>)
    ensures LastExit([m] + marks) == if LastExit(marks).Some? then LastExit(marks)
                                     else if m.Exit? then Some(m.now) else None
    decreases |marks|
  {
    var s := [m] + marks;
    if |marks| > 0 {
      assert s[|s| - 1] == marks[|marks| - 1];
      if !marks[|marks| - 1].Exit? {
        assert s[..|s| - 1] == [m] + marks[..|marks| - 1];
        LastExitCons(m, marks[..|marks| - 1]);
      }
    }
  }

  /**
   The record after a sequence of marks, stated without replaying them: the
   counter grows by the number of enters, the first enter time stays latched
   once set, and the exit time is that of the last exit.
   */
  lemma {:induction false} ApplySummary(d: MetricData, marks: seq<Mark>)
    requires FitsCounter(d, marks)
    ensures Apply(d, marks).enterCount as int == d.enterCount as int + CountEnters(marks)
    ensures Apply(d, marks).entered == if d.entered.Some? then d.entered else FirstEnter(marks)
    ensures Apply(d, marks).exited == if LastExit(marks).Some? then LastExit(marks) else d.exited
    decreases |marks|
  {
    if |marks| > 0 {
      var d' := if marks[0].Enter? then MarkEntered(d, marks[0].now) else MarkExited(d, marks[0].now);
      ApplySummary(d', marks[1..]);
      LastExitCons(marks[0], marks[1..]);
      assert marks == [marks[0]] + marks[1..];
    }
  }

  lemma {:induction false} FirstEnterIffEntered(marks: seq<Mark>)
    ensures CountEnters(marks) > 0 <==> FirstEnter(marks).Some?
    decreases |marks|
  {
    if |marks| > 0 {
      FirstEnterIffEntered(marks[1..]);
    }
  }

  /** Starting from a fresh record, every sequence of marks keeps the record consistent. */
  lemma ConsistentFromFresh(marks: seq<Mark>)
    requires FitsCounter(Fresh(), marks)
    ensures Consistent(Apply(Fresh(), marks))
  {
    ApplySummary(Fresh(), marks);
    FirstEnterIffEntered(marks);
  }

  /**
   Closing a span that saw `marks` since creation: no emission when it was
   never entered; otherwise the number of enters and the first-enter to
   last-exit window; and a panic when it was entered but never exited.
   */
  lemma FlushAfterMarks(marks: seq<Mark>, m: SpanMetadata)
    requires FitsCounter(Fresh(), marks)
    ensures CountEnters(marks) > 0 <==> FirstEnter(marks).Some?
    ensures var d := Apply(Fresh(), marks);
      && (CountEnters(marks) == 0 ==> CanFlush(d) && Flush(d, m).1 == [])
      && (CountEnters(marks) > 0 && LastExit(marks).Some? ==>
            CanFlush(d) &&
            Flush(d, m).1 == [Counter(CounterName(m), CountEnters(marks) as u64),
                              Timing(TimingName(m), FirstEnter(marks).value, LastExit(marks).value)])
      && (CountEnters(marks) > 0 && LastExit(marks).None? ==> !CanFlush(d))
  {
    ApplySummary(Fresh(), marks);
    FirstEnterIffEntered(marks);
  }

  /** Clock readings never go backwards along `marks`. */
  predicate Monotonic(marks: seq<Mark>) {
    forall i, j :: 0 <= i < j < |marks| ==> marks[i].now <= marks[j].now
  }

  /** Index of the first enter: every mark before it is an exit. */
  lemma {:induction false} FirstEnterAt(marks: seq<Mark>, e: nat) returns (i: nat)
    requires e < |marks| && marks[e].Enter?
    ensures i <= e && marks[i].Enter? && FirstEnter(marks) == Some(marks[i].now)
    ensures forall j :: 0 <= j < i ==> marks[j].Exit?
    decreases |marks|
  {
    if marks[0].Enter? {
      i := 0;
    } else {
      var i' := FirstEnterAt(marks[1..], e - 1);
      i := i' + 1;
      forall j | 0 <= j < i
        ensures marks[j].Exit?
      {
        if j > 0 { assert marks[j] == marks[1..][j - 1]; }
      }
    }
  }

  /** Index of the last exit: every mark after it is an enter. */
  lemma {:induction false} LastExitAt(marks: seq<Mark>, x: nat) returns (k: nat)
    requires x < |marks| && marks[x].Exit?
    ensures x <= k < |marks| && marks[k].Exit? && LastExit(marks) == Some(marks[k].now)
    ensures forall j :: k < j < |marks| ==> marks[j].Enter?
    decreases |marks|
  {
    if marks[|marks| - 1].Exit? {
      k := |marks| - 1;
    } else {
      var init := marks[..|marks| - 1];
      k := LastExitAt(init, x);
      assert marks[k] == init[k];
      forall j | k < j < |marks|
        ensures marks[j].Enter?
      {
        if j < |marks| - 1 { assert marks[j] == init[j]; }
      }
    }
  }

  /**
   With a monotonic clock, the emitted timing window is never negative as
   soon as some exit comes after an enter: the first enter is no later than
   that enter, and the last exit no earlier than that exit.
   */
  lemma TimingWindowOrdered(marks: seq<Mark>, e: nat, x: nat)
    requires Monotonic(marks)
    requires e < x < |marks| && marks[e].Enter? && marks[x].Exit?
    ensures FirstEnter(marks).Some? && LastExit(marks).Some?
    ensures FirstEnter(marks).value <= LastExit(marks).value
  {
    var i := FirstEnterAt(marks, e);
    var k := LastExitAt(marks, x);
    assert i < k;
  }

  /**
   Without an exit after an enter the window can come out reversed, even on a
   monotonic clock: exited at 5 and never entered before, then entered at 10,
   the span hands `timing!` the start 10 and the end 5. The macro reduces that
   window to one `u64` duration inside `flush`; the subtraction underflows
   there, which this model does not carry further.
   */
  lemma ExitBeforeEnterReversesWindow(m: SpanMetadata)
    ensures Monotonic([Exit(5), Enter(10)])
    ensures var d := Apply(Fresh(), [Exit(5), Enter(10)]);
      && d == MetricData(1, Some(10), Some(5))
      && CanFlush(d)
      && Flush(d, m).1 == [Counter(CounterName(m), 1), Timing(TimingName(m), 10, 5)]
  {
    ApplySummary(Fresh(), [Exit(5), Enter(10)]);
  }

  /** Scenario: enter at 10, enter again at 20, exit at 30 keeps the first enter time. */
  lemma ReentryKeepsFirstEnter(m: SpanMetadata)
    ensures var d := Apply(Fresh(), [Enter(10), Enter(20), Exit(30)]);
      && d == MetricData(2, Some(10), Some(30))
      && Flush(d, m).1 == [Counter(CounterName(m), 2), Timing(TimingName(m), 10, 30)]
  {
    ApplySummary(Fresh(), [Enter(10), Enter(20), Exit(30)]);
  }
}
